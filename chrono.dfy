/** The part of chrono's local date and time arithmetic the reminder rule relies on.
    A calendar date (`NaiveDate`) is a day number, a time of day (`NaiveTime`) is whole
    seconds since midnight, and a date with a time (`NaiveDateTime`) is seconds since
    midnight of day 0. Subtracting a duration and reading the date, hour and minute back
    normalise with floor division, as chrono does for instants before midnight. */
module Chrono {
  import opened Results

  const SecondsPerMinute: int := 60
  const SecondsPerHour: int := 3600
  const SecondsPerDay: int := 86400

  /** `NaiveTime` to whole seconds (sub-second nanoseconds are not modelled). */
  type TimeOfDay = s: int | 0 <= s < 86400

  /** `NaiveDate` as a day number. */
  type Day = int

  /** `NaiveDateTime` as seconds since midnight of day 0. */
  type Instant = int

  /** `NaiveDateTime::new(date, time)`. */
  function Combine(date: Day, time: TimeOfDay): (t: Instant)
    ensures DateOf(t) == date && TimeOf(t) == time
  {
    date * SecondsPerDay + time
  }

  /** `.date()` of an instant. */
  function DateOf(t: Instant): Day
  {
    t / SecondsPerDay
  }

  /** `.time()` of an instant. */
  function TimeOf(t: Instant): TimeOfDay
  {
    t % SecondsPerDay
  }

  /** `Timelike::hour`. */
  function Hour(time: TimeOfDay): (h: int)
    ensures 0 <= h < 24
  {
    time / SecondsPerHour
  }

  /** `Timelike::minute`. */
  function Minute(time: TimeOfDay): (m: int)
    ensures 0 <= m < 60
  {
    time / SecondsPerMinute % 60
  }

  /** `Timelike::second`. */
  function Second(time: TimeOfDay): (s: int)
    ensures 0 <= s < 60
  {
    time % SecondsPerMinute
  }

  /** `instant - Duration::hours(hours)`. */
  function MinusHours(t: Instant, hours: int): Instant
  {
    t - hours * SecondsPerHour
  }

  /** The three-way comparison of the notification rule: same hour, same minute and
      same calendar date. */
  predicate SameMinute(a: Instant, b: Instant)
  {
    Hour(TimeOf(a)) == Hour(TimeOf(b))
    && Minute(TimeOf(a)) == Minute(TimeOf(b))
    && DateOf(a) == DateOf(b)
  }

  /** `NaiveTime::from_hms_opt(h, m, s)`: `None` unless the hour, minute and second are in
      range; otherwise the time whose hour, minute and second read back as given. */
  function FromHms(h: nat, m: nat, s: nat): (r: Option<TimeOfDay>)
    ensures r.Some? <==> h < 24 && m < 60 && s < 60
    ensures r.Some? ==> Hour(r.value) == h && Minute(r.value) == m && Second(r.value) == s
  {
    if h < 24 && m < 60 && s < 60 then
      DigitsOfTime(h, m, s);
      Some(h * SecondsPerHour + m * SecondsPerMinute + s)
    else
      None
  }

  lemma DigitsOfTime(h: nat, m: nat, s: nat)
    requires h < 24 && m < 60 && s < 60
    ensures var t := h * 3600 + m * 60 + s;
      t < 86400 && t / 3600 == h && t / 60 % 60 == m && t % 60 == s
  {
    var t := h * 3600 + m * 60 + s;
    DivisionUnique(t, 3600, h, m * 60 + s);
    DivisionUnique(t, 60, h * 60 + m, s);
    DivisionUnique(h * 60 + m, 60, h, m);
  }

  /** Division by a positive constant has a unique quotient and remainder. */
  lemma DivisionUnique(x: int, k: int, q: int, r: int)
    requires k > 0 && 0 <= r < k && x == q * k + r
    ensures x / k == q && x % k == r
  {
    var q', r' := x / k, x % k;
    assert x == q' * k + r';
    if q' > q {
      assert q' * k >= (q + 1) * k by { MultiplyMonotone(q + 1, q', k); }
    } else if q' < q {
      assert q * k >= (q' + 1) * k by { MultiplyMonotone(q' + 1, q, k); }
    }
  }

  lemma MultiplyMonotone(a: int, b: int, k: int)
    requires a <= b && k > 0
    ensures a * k <= b * k
  {
  }

  /** The minute number of an instant is made of its date, hour and minute. */
  lemma {:induction false} MinuteNumber(t: Instant)
    ensures t / 60 == DateOf(t) * 1440 + Hour(TimeOf(t)) * 60 + Minute(TimeOf(t))
  {
    var d, time := DateOf(t), TimeOf(t);
    var h, m, s := time / 3600, time / 60 % 60, time % 60;
    assert t == d * 86400 + time;
    assert time / 60 == h * 60 + m by {
      DivisionUnique(time, 60, time / 60, s);
      DivisionUnique(time / 60, 60, time / 60 / 60, m);
      DivisionUnique(time, 3600, time / 60 / 60, m * 60 + s);
    }
    assert time == (h * 60 + m) * 60 + s;
    DivisionUnique(t, 60, d * 1440 + h * 60 + m, s);
  }

  /** The minute-granularity test at the heart of the notification rule is equality of
      minute numbers: two instants agree on date, hour and minute exactly when they fall in
      the same sixty-second window `[60k, 60k + 60)`. */
  lemma {:induction false} SameMinuteIffSameMinuteNumber(a: Instant, b: Instant)
    ensures SameMinute(a, b) <==> a / 60 == b / 60
  {
    MinuteNumber(a);
    MinuteNumber(b);
    var ma := Hour(TimeOf(a)) * 60 + Minute(TimeOf(a));
    var mb := Hour(TimeOf(b)) * 60 + Minute(TimeOf(b));
    if a / 60 == b / 60 {
      DivisionUnique(a / 60, 1440, DateOf(a), ma);
      DivisionUnique(b / 60, 1440, DateOf(b), mb);
      DivisionUnique(ma, 60, Hour(TimeOf(a)), Minute(TimeOf(a)));
      DivisionUnique(mb, 60, Hour(TimeOf(b)), Minute(TimeOf(b)));
    }
  }
}

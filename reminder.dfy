/** The `Reminder` record and the rules that look at one reminder at a time:
    completeness, the notify instant, when a reminder is due, and the two flag updates
    that move it from Pending to Due to Delivered. */
module Reminders {
  import opened Chrono

  /** One reminder. `notifyWhen` is the lead time in hours; `shouldNotify` is the
      transient "due now" flag and `didNotify` the persisted "already delivered" flag. */
  datatype Reminder = Reminder(
    title: string,
    description: string,
    date: Day,
    time: TimeOfDay,
    notifyWhen: int,
    shouldNotify: bool,
    didNotify: bool)

  /** The three states of a reminder's two flags. The fourth combination (both flags set)
      is never produced by the operations of the store. */
  datatype Phase = Pending | Due | Delivered | Both

  function PhaseOf(r: Reminder): (p: Phase)
    ensures p == Delivered <==> r.didNotify && !r.shouldNotify
    ensures p == Due <==> !r.didNotify && r.shouldNotify
    ensures p == Pending <==> !r.didNotify && !r.shouldNotify
  {
    match (r.shouldNotify, r.didNotify)
    case (false, false) => Pending
    case (true, false) => Due
    case (false, true) => Delivered
    case (true, true) => Both
  }

  /** `Reminder::new()`: empty title and description, the current date and time (passed
      in instead of read from the clock), no lead time and neither flag set. */
  function NewReminder(today: Day, timeNow: TimeOfDay): (r: Reminder)
    ensures r.title == [] && r.description == []
    ensures r.date == today && r.time == timeNow && r.notifyWhen == 0
    ensures PhaseOf(r) == Pending
    ensures IsNotFilled(r)
  {
    Reminder([], [], today, timeNow, 0, false, false)
  }

  /** `Reminder::is_not_filled`: the reminder may not be committed. */
  predicate IsNotFilled(r: Reminder)
  {
    r.title == [] || r.description == []
  }

  /** A reminder is complete, and may be committed, exactly when both its title and its
      description are non-empty. */
  lemma {:induction false} CompleteIffBothTextsNonEmpty(r: Reminder)
    ensures !IsNotFilled(r) <==> |r.title| > 0 && |r.description| > 0
  {
    if |r.title| > 0 && |r.description| > 0 {
      assert r.title != [] && r.description != [];
    }
  }

  /** The date and time combined, minus `notifyWhen` hours. */
  function NotifyInstant(r: Reminder): (t: Instant)
    ensures t + r.notifyWhen * SecondsPerHour == Combine(r.date, r.time)
  {
    MinusHours(Combine(r.date, r.time), r.notifyWhen)
  }

  /** The condition under which `check_for_notification` raises `shouldNotify`: the
      notify instant has the date, hour and minute of `now`, and the reminder has not
      been delivered yet. */
  predicate IsDue(r: Reminder, now: Instant)
  {
    SameMinute(NotifyInstant(r), now) && !r.didNotify
  }

  /** Due means: not yet delivered, and `now` lies in the sixty-second window that
      starts at the whole minute of the notify instant. */
  lemma {:induction false} IsDueIffInNotifyMinute(r: Reminder, now: Instant)
    ensures IsDue(r, now) <==>
      !r.didNotify
      && NotifyInstant(r) / 60 * 60 <= now < NotifyInstant(r) / 60 * 60 + 60
  {
    SameMinuteIffSameMinuteNumber(NotifyInstant(r), now);
    var k := NotifyInstant(r) / 60;
    if k * 60 <= now < k * 60 + 60 {
      DivisionUnique(now, 60, k, now - k * 60);
    }
  }

  /** The body of the loop in `check_for_notification`, for one element. */
  function Checked(r: Reminder, now: Instant): (c: Reminder)
    ensures c.shouldNotify == (r.shouldNotify || IsDue(r, now))
    ensures c == r.(shouldNotify := c.shouldNotify)
  {
    if IsDue(r, now) then r.(shouldNotify := true) else r
  }

  /** The per-element update of `send_notification` for an element equal to its argument. */
  function MarkDelivered(r: Reminder): (d: Reminder)
    ensures d.didNotify && !d.shouldNotify && PhaseOf(d) == Delivered
    ensures d == r.(didNotify := true, shouldNotify := false)
  {
    r.(didNotify := true, shouldNotify := false)
  }

  /** Delivered is terminal: once `didNotify` is set, checking leaves the reminder exactly
      as it is, at every instant, and delivering it again keeps it Delivered. */
  lemma {:induction false} DeliveredIsTerminal(r: Reminder, now: Instant)
    requires PhaseOf(r) == Delivered
    ensures Checked(r, now) == r
    ensures PhaseOf(MarkDelivered(r)) == Delivered
  {
  }

  /** The flags move forward only: Pending becomes Due when due and stays Pending
      otherwise; Due stays Due when checked; both become Delivered when delivered. */
  lemma {:induction false} PhaseTransitions(r: Reminder, now: Instant)
    ensures PhaseOf(r) == Pending ==>
      PhaseOf(Checked(r, now)) == (if IsDue(r, now) then Due else Pending)
    ensures PhaseOf(r) == Due ==> PhaseOf(Checked(r, now)) == Due
    ensures PhaseOf(r) != Both ==> PhaseOf(MarkDelivered(r)) == Delivered
  {
  }
}

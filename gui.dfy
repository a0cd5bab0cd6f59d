/** The state logic of `ReminderGui`, the application window: the theme switch, the
    time and lead-time selectors, committing the reminder being edited, the delete button,
    and the per-frame notification pass. Widgets are not modelled; a click is a boolean
    and a selector choice is an argument. */
module Gui {
  import opened Results
  import opened Chrono
  import opened Reminders
  import opened JsonFile
  import opened Store

  datatype Theme = Light | Dark {
    /** `Theme::change_theme`: the other theme (with two themes, any other one is it). */
    function Changed(): (t: Theme)
      ensures t != this
    {
      match this
      case Dark => Light
      case Light => Dark
    }
  }

  /** Switching twice restores the theme. */
  lemma {:induction false} ChangeThemeTwice(t: Theme)
    ensures t.Changed().Changed() == t
  {
  }

  /** Some element of the list is flagged as due. */
  predicate Flagged(xs: seq<Reminder>)
  {
    xs != [] && (xs[0].shouldNotify || Flagged(xs[1..]))
  }

  lemma {:induction false} FlaggedIffSomeFlag(xs: seq<Reminder>)
    ensures Flagged(xs) <==> exists j :: 0 <= j < |xs| && xs[j].shouldNotify
  {
    if xs != [] {
      FlaggedIffSomeFlag(xs[1..]);
      if exists j :: 0 <= j < |xs| && xs[j].shouldNotify {
        var j :| 0 <= j < |xs| && xs[j].shouldNotify;
        if j > 0 {
          assert xs[1..][j - 1].shouldNotify;
        }
      }
    }
  }

  lemma {:induction false} FlaggedAppend(xs: seq<Reminder>, x: Reminder)
    ensures Flagged(xs + [x]) <==> Flagged(xs) || x.shouldNotify
    decreases |xs|
  {
    if xs == [] {
      assert Flagged([x]) <==> x.shouldNotify || Flagged([x][1..]);
    } else {
      FlaggedAppend(xs[1..], x);
      assert (xs + [x])[1..] == xs[1..] + [x];
    }
  }

  /** The notices the delivery loop shows for a checked list: one per flagged element, in
      list order. */
  function FlaggedNotices(xs: seq<Reminder>): (ns: seq<Notice>)
    ensures |ns| <= |xs|
    ensures ns == [] <==> !Flagged(xs)
  {
    if xs == [] then []
    else (if xs[0].shouldNotify then [NoticeOf(xs[0])] else []) + FlaggedNotices(xs[1..])
  }

  /** The list after the delivery loop of `handle_notifications`, run over a snapshot
      `xs` of the checked list: every flagged element is Delivered, the others unchanged. */
  function DeliverFlagged(xs: seq<Reminder>): (ys: seq<Reminder>)
    ensures |ys| == |xs|
    ensures forall j :: 0 <= j < |xs| ==>
      ys[j] == if xs[j].shouldNotify then MarkDelivered(xs[j]) else xs[j]
  {
    seq(|xs|, j requires 0 <= j < |xs| => if xs[j].shouldNotify then MarkDelivered(xs[j]) else xs[j])
  }

  /** The list after `handle_notifications(now)`: each element that was flagged or became
      due is Delivered, every other element is unchanged, and no element is left flagged. */
  function Handled(xs: seq<Reminder>, now: Instant): (ys: seq<Reminder>)
    ensures |ys| == |xs|
    ensures forall j :: 0 <= j < |xs| ==>
      ys[j] == if xs[j].shouldNotify || IsDue(xs[j], now) then MarkDelivered(xs[j]) else xs[j]
    ensures forall j :: 0 <= j < |xs| ==> !ys[j].shouldNotify
    ensures forall j :: 0 <= j < |xs| && IsDue(xs[j], now) ==> ys[j].didNotify
  {
    var checked := MarkDue(xs, now);
    assert forall j :: 0 <= j < |xs| ==> MarkDelivered(checked[j]) == MarkDelivered(xs[j]);
    DeliverFlagged(checked)
  }

  /** At-most-once delivery: after a notification pass at `now`, a second pass at any
      instant of the same minute flags nothing, so it shows no notification, writes
      nothing, and leaves the list as it is. */
  lemma {:induction false} SecondPassInSameMinuteIsQuiet(xs: seq<Reminder>, now: Instant, later: Instant)
    requires later / 60 == now / 60
    ensures !Flagged(MarkDue(Handled(xs, now), later))
    ensures FlaggedNotices(MarkDue(Handled(xs, now), later)) == []
    ensures Handled(Handled(xs, now), later) == Handled(xs, now)
  {
    var ys := Handled(xs, now);
    forall j | 0 <= j < |ys|
      ensures !IsDue(ys[j], later)
    {
      SameMinuteIffSameMinuteNumber(NotifyInstant(xs[j]), now);
      SameMinuteIffSameMinuteNumber(NotifyInstant(xs[j]), later);
    }
    FlaggedIffSomeFlag(MarkDue(ys, later));
  }

  /** What the loop of a pass over the checked list `s` leaves, in the terms of the
      pass's specification. */
  lemma {:induction false} PassOutcome(xs: seq<Reminder>, now: Instant)
    ensures var s := MarkDue(xs, now);
      && Partial(s, s) == Handled(xs, now)
      && multiset(Shown(s, |s|)) == multiset(FlaggedNotices(s))
      && FlaggedBefore(s, |s|) == Flagged(s)
      && (!Flagged(s) ==> Handled(xs, now) == xs)
      && LoadList(Some(Encode(Handled(xs, now)))) == Ok(Handled(xs, now))
  {
    var s := MarkDue(xs, now);
    PartialAllIsHandled(xs, now);
    ShownAll(s);
    FlaggedBeforeAll(s, |s|);
    assert s[..|s|] == s;
    if !Flagged(s) {
      QuietPassChangesNothing(xs, now);
    }
    DecodeEncode(Handled(xs, now));
  }

  /** A pass that finds nothing flagged after the check leaves the list as it was. */
  lemma {:induction false} QuietPassChangesNothing(xs: seq<Reminder>, now: Instant)
    requires !Flagged(MarkDue(xs, now))
    ensures Handled(xs, now) == xs
  {
    var checked := MarkDue(xs, now);
    FlaggedIffSomeFlag(checked);
    assert forall j :: 0 <= j < |xs| ==> !checked[j].shouldNotify;
  }

  // The delivery loop in `handle_notifications` walks a snapshot `s` of the checked list
  // and calls `send_notification` on the live list for each flagged snapshot element.
  // `Partial(s, seen)` is the live list once the snapshot elements in `seen` have been
  // sent, and `NoticesSeen(s, seen)` the notices shown by then, up to order.

  function Partial(s: seq<Reminder>, seen: seq<Reminder>): (live: seq<Reminder>)
    ensures |live| == |s|
    ensures forall j :: 0 <= j < |s| ==>
      live[j] == if s[j].shouldNotify && s[j] in seen then MarkDelivered(s[j]) else s[j]
  {
    seq(|s|, j requires 0 <= j < |s| => if s[j].shouldNotify && s[j] in seen then MarkDelivered(s[j]) else s[j])
  }

  function NoticesSeen(s: seq<Reminder>, seen: seq<Reminder>): seq<Notice>
  {
    if s == [] then []
    else (if s[0].shouldNotify && s[0] in seen then [NoticeOf(s[0])] else []) + NoticesSeen(s[1..], seen)
  }

  /** Two lists that hold `y` and `z` at the same positions hold as many of each. */
  lemma {:induction false} CountAtSamePositions(a: seq<Reminder>, b: seq<Reminder>, y: Reminder, z: Reminder)
    requires |a| == |b|
    requires forall j :: 0 <= j < |a| ==> (a[j] == y <==> b[j] == z)
    ensures multiset(a)[y] == multiset(b)[z]
    decreases |a|
  {
    if a != [] {
      CountAtSamePositions(a[1..], b[1..], y, z);
      assert a == [a[0]] + a[1..];
      assert b == [b[0]] + b[1..];
    }
  }

  lemma {:induction false} RepeatGrows(n: Notice, k: nat)
    ensures multiset(Repeat(n, k + 1)) == multiset(Repeat(n, k)) + multiset{n}
  {
    assert Repeat(n, k + 1) == Repeat(n, k) + [n];
  }

  /** Sending snapshot element `y` adds one notice for each of its copies in the snapshot
      the first time, and none after that. */
  lemma {:induction false} NoticesSeenStep(s: seq<Reminder>, seen: seq<Reminder>, y: Reminder)
    requires y.shouldNotify
    ensures multiset(NoticesSeen(s, seen + [y])) == multiset(NoticesSeen(s, seen))
      + multiset(Repeat(NoticeOf(y), if y in seen then 0 else multiset(s)[y]))
    decreases |s|
  {
    if s == [] {
      assert Repeat(NoticeOf(y), 0) == [];
    } else {
      NoticesSeenStep(s[1..], seen, y);
      assert s == [s[0]] + s[1..];
      if y !in seen && s[0] == y {
        FirstCopyStep(s, seen, y);
      } else {
        OtherElementStep(s, seen, y);
      }
    }
  }

  /** The head of `s` is the first copy of `y` to be sent. */
  lemma {:induction false} FirstCopyStep(s: seq<Reminder>, seen: seq<Reminder>, y: Reminder)
    requires y.shouldNotify && s != [] && s[0] == y && y !in seen
    requires s == [s[0]] + s[1..]
    requires multiset(NoticesSeen(s[1..], seen + [y])) == multiset(NoticesSeen(s[1..], seen))
      + multiset(Repeat(NoticeOf(y), multiset(s[1..])[y]))
    ensures multiset(NoticesSeen(s, seen + [y])) == multiset(NoticesSeen(s, seen))
      + multiset(Repeat(NoticeOf(y), multiset(s)[y]))
  {
    var n, count := NoticeOf(y), multiset(s[1..])[y];
    var after, before := NoticesSeen(s[1..], seen + [y]), NoticesSeen(s[1..], seen);
    assert NoticesSeen(s, seen + [y]) == [n] + after;
    assert NoticesSeen(s, seen) == before;
    CountHead(s, y);
    OneMoreCopy(after, before, n, count);
  }

  lemma {:induction false} CountHead(s: seq<Reminder>, y: Reminder)
    requires s != []
    ensures multiset(s)[y] == multiset(s[1..])[y] + if s[0] == y then 1 else 0
  {
    assert s == [s[0]] + s[1..];
  }

  lemma {:induction false} OneMoreCopy(after: seq<Notice>, before: seq<Notice>, n: Notice, count: nat)
    requires multiset(after) == multiset(before) + multiset(Repeat(n, count))
    ensures multiset([n] + after) == multiset(before) + multiset(Repeat(n, count + 1))
  {
    RepeatGrows(n, count);
  }

  /** The head of `s` is not a copy of `y` sent for the first time: it contributes the same
      notices before and after. */
  lemma {:induction false} OtherElementStep(s: seq<Reminder>, seen: seq<Reminder>, y: Reminder)
    requires y.shouldNotify && s != [] && !(y !in seen && s[0] == y)
    requires s == [s[0]] + s[1..]
    requires multiset(NoticesSeen(s[1..], seen + [y])) == multiset(NoticesSeen(s[1..], seen))
      + multiset(Repeat(NoticeOf(y), if y in seen then 0 else multiset(s[1..])[y]))
    ensures multiset(NoticesSeen(s, seen + [y])) == multiset(NoticesSeen(s, seen))
      + multiset(Repeat(NoticeOf(y), if y in seen then 0 else multiset(s)[y]))
  {
    var head := if s[0].shouldNotify && s[0] in seen then [NoticeOf(s[0])] else [];
    assert s[0] in seen + [y] <==> s[0] in seen || s[0] == y;
    assert NoticesSeen(s, seen + [y]) == head + NoticesSeen(s[1..], seen + [y]);
    assert NoticesSeen(s, seen) == head + NoticesSeen(s[1..], seen);
    assert (if y in seen then 0 else multiset(s)[y]) == (if y in seen then 0 else multiset(s[1..])[y]);
  }

  lemma {:induction false} NoticesSeenNothing(s: seq<Reminder>)
    ensures NoticesSeen(s, []) == []
    decreases |s|
  {
    if s != [] {
      NoticesSeenNothing(s[1..]);
    }
  }

  lemma {:induction false} NoticesSeenUnchanged(s: seq<Reminder>, seen: seq<Reminder>, y: Reminder)
    requires !y.shouldNotify
    ensures NoticesSeen(s, seen + [y]) == NoticesSeen(s, seen)
    decreases |s|
  {
    if s != [] {
      NoticesSeenUnchanged(s[1..], seen, y);
    }
  }

  lemma {:induction false} NoticesSeenAll(s: seq<Reminder>, seen: seq<Reminder>)
    requires forall x :: x in s ==> x in seen
    ensures NoticesSeen(s, seen) == FlaggedNotices(s)
    decreases |s|
  {
    if s != [] {
      NoticesSeenAll(s[1..], seen);
    }
  }

  /** One iteration of the delivery loop: sending a flagged snapshot element to the live
      list delivers its copies that are still flagged, which are exactly its copies in
      the snapshot the first time and none after that. */
  lemma {:induction false} DeliveryStep(s: seq<Reminder>, seen: seq<Reminder>, y: Reminder)
    requires y.shouldNotify
    ensures DeliverMatching(Partial(s, seen), y) == Partial(s, seen + [y])
    ensures multiset(Partial(s, seen))[y] == if y in seen then 0 else multiset(s)[y]
  {
    var live := Partial(s, seen);
    assert DeliverMatching(live, y) == Partial(s, seen + [y]);
    if y in seen {
      assert y !in live;
    } else {
      CountAtSamePositions(live, s, y, y);
    }
  }

  lemma {:induction false} PartialNothing(s: seq<Reminder>)
    ensures Partial(s, []) == s
  {
  }

  lemma {:induction false} PartialUnchanged(s: seq<Reminder>, seen: seq<Reminder>, y: Reminder)
    requires !y.shouldNotify
    ensures Partial(s, seen + [y]) == Partial(s, seen)
  {
  }

  lemma {:induction false} PartialAllIsHandled(xs: seq<Reminder>, now: Instant)
    ensures Partial(MarkDue(xs, now), MarkDue(xs, now)) == Handled(xs, now)
  {
    var s := MarkDue(xs, now);
    assert forall j :: 0 <= j < |s| ==> s[j] in s;
  }

  lemma {:induction false} FlaggedPrefix(s: seq<Reminder>, i: nat)
    requires i < |s|
    ensures Flagged(s[..i + 1]) <==> Flagged(s[..i]) || s[i].shouldNotify
  {
    assert s[..i + 1] == s[..i] + [s[i]];
    FlaggedAppend(s[..i], s[i]);
  }

  /** An iteration of the delivery loop that sends the flagged snapshot element `s[i]`. */
  lemma {:induction false} SendStep(s: seq<Reminder>, i: nat)
    requires i < |s| && s[i].shouldNotify
    ensures DeliverMatching(Partial(s, s[..i]), s[i]) == Partial(s, s[..i + 1])
    ensures Shown(s, i + 1) == Shown(s, i) + Repeat(NoticeOf(s[i]), multiset(Partial(s, s[..i]))[s[i]])
    ensures FlaggedBefore(s, i + 1)
  {
    assert s[..i + 1] == s[..i] + [s[i]];
    DeliveryStep(s, s[..i], s[i]);
  }

  /** An iteration of the delivery loop that skips the unflagged snapshot element `s[i]`. */
  lemma {:induction false} SkipStep(s: seq<Reminder>, i: nat)
    requires i < |s| && !s[i].shouldNotify
    ensures Partial(s, s[..i + 1]) == Partial(s, s[..i])
    ensures Shown(s, i + 1) == Shown(s, i)
    ensures FlaggedBefore(s, i + 1) == FlaggedBefore(s, i)
  {
    assert s[..i + 1] == s[..i] + [s[i]];
    PartialUnchanged(s, s[..i], s[i]);
  }

  /** Some element among the first `i` of `s` is flagged. */
  predicate FlaggedBefore(s: seq<Reminder>, i: nat)
    requires i <= |s|
  {
    i > 0 && (s[i - 1].shouldNotify || FlaggedBefore(s, i - 1))
  }

  lemma {:induction false} FlaggedBeforeAll(s: seq<Reminder>, i: nat)
    requires i <= |s|
    ensures FlaggedBefore(s, i) <==> Flagged(s[..i])
  {
    if i > 0 {
      FlaggedBeforeAll(s, i - 1);
      FlaggedPrefix(s, i - 1);
    }
  }

  /** The notices shown by the first `i` iterations of the delivery loop over the
      snapshot `s`, in the order they are shown: each flagged element shows one notice per
      copy of it still flagged in the live list. */
  function Shown(s: seq<Reminder>, i: nat): seq<Notice>
    requires i <= |s|
  {
    if i == 0 then []
    else
      Shown(s, i - 1)
      + if s[i - 1].shouldNotify
        then Repeat(NoticeOf(s[i - 1]), multiset(Partial(s, s[..i - 1]))[s[i - 1]])
        else []
  }

  lemma {:induction false} ShownUpToOrder(s: seq<Reminder>, i: nat)
    requires i <= |s|
    ensures multiset(Shown(s, i)) == multiset(NoticesSeen(s, s[..i]))
  {
    if i == 0 {
      NoticesSeenNothing(s);
    } else {
      var k, y := i - 1, s[i - 1];
      ShownUpToOrder(s, k);
      assert s[..i] == s[..k] + [y];
      if y.shouldNotify {
        DeliveryStep(s, s[..k], y);
        NoticesSeenStep(s, s[..k], y);
      } else {
        NoticesSeenUnchanged(s, s[..k], y);
      }
    }
  }

  /** The whole delivery loop shows one notice per flagged element of the snapshot, up
      to order. */
  lemma {:induction false} ShownAll(s: seq<Reminder>)
    ensures multiset(Shown(s, |s|)) == multiset(FlaggedNotices(s))
  {
    ShownUpToOrder(s, |s|);
    assert s[..|s|] == s;
    NoticesSeenAll(s, s);
  }

  class ReminderGui {
    var theme: Theme
    var reminderWindowStatus: bool
    var reminderList: ReminderList
    /** The reminder being edited in the "Reminder" window. */
    var reminder: Reminder
    var hours: nat
    var minutes: nat

    /** The selectors offer hours 0 to 23, minutes 0 to 59 and lead times 0 to 24, and
        the file loads back as the list held in memory. */
    ghost predicate Valid()
      reads this, reminderList
    {
      && hours <= 23 && minutes <= 59 && 0 <= reminder.notifyWhen <= 24
      && LoadList(reminderList.file) == Ok(reminderList.list)
    }

    /** `ReminderGui::default()`, with the clock reading for `Reminder::new()` passed in. */
    constructor Default(disk: Disk, today: Day, timeNow: TimeOfDay)
      requires LoadList(disk).Ok?
      ensures Valid() && fresh(reminderList)
      ensures theme == Dark && !reminderWindowStatus && hours == 0 && minutes == 0
      ensures reminder == NewReminder(today, timeNow)
      ensures reminderList.list == LoadList(disk).value && reminderList.file == disk
      ensures reminderList.sent == []
    {
      theme := Dark;
      reminderWindowStatus := false;
      reminderList := new ReminderList.Default(disk);
      reminder := NewReminder(today, timeNow);
      hours, minutes := 0, 0;
    }

    /** The theme button. */
    method SwitchTheme()
      modifies this`theme
      ensures theme == old(theme).Changed()
    {
      theme := theme.Changed();
    }

    /** The hour selector. */
    method SelectHours(hour: nat)
      requires Valid() && hour <= 23
      modifies this`hours
      ensures Valid() && hours == hour
    {
      hours := hour;
    }

    /** The minute selector. */
    method SelectMinutes(minute: nat)
      requires Valid() && minute <= 59
      modifies this`minutes
      ensures Valid() && minutes == minute
    {
      minutes := minute;
    }

    /** The lead-time selector, which offers 0 to 24 hours. */
    method SelectNotifyWhen(lead: int)
      requires Valid() && 0 <= lead <= 24
      modifies this`reminder
      ensures Valid() && reminder == old(reminder).(notifyWhen := lead)
    {
      reminder := reminder.(notifyWhen := lead);
    }

    /** The title and description text fields and the date picker. */
    method EditReminder(title: string, description: string, date: Day)
      requires Valid()
      modifies this`reminder
      ensures Valid()
      ensures reminder == old(reminder).(title := title, description := description, date := date)
    {
      reminder := reminder.(title := title, description := description, date := date);
    }

    /** `parse_hours_minutes_to_naive_time`: the selected hour and minute with second 0.
        It cannot fail for values the selectors offer. */
    method ParseHoursMinutesToNaiveTime() returns (t: TimeOfDay)
      requires hours <= 23 && minutes <= 59
      ensures Hour(t) == hours && Minute(t) == minutes && Second(t) == 0
    {
      var parsed := FromHms(hours, minutes, 0);
      t := parsed.value;
    }

    /** `reset_hours_minutes`. */
    method ResetHoursMinutes()
      modifies this`hours, this`minutes
      ensures hours == 0 && minutes == 0
    {
      hours := 0;
      minutes := 0;
    }

    /** The commit branch of the "Reminder" window. A complete reminder is stored, with
        the selected time, when "save reminder" is clicked: the list grows by exactly that
        reminder and is saved without truncation, the selectors reset, the window closes
        and a fresh reminder (from the clock reading passed in) is held. Otherwise nothing
        changes. */
    method CommitReminder(saveClicked: bool, today: Day, timeNow: TimeOfDay)
      requires Valid()
      modifies this`reminder, this`hours, this`minutes, this`reminderWindowStatus, reminderList
      ensures Valid()
      ensures reminderList.sent == old(reminderList.sent)
      ensures !IsNotFilled(old(reminder)) && saveClicked ==>
        && |reminderList.list| == |old(reminderList.list)| + 1
        && reminderList.list[..|old(reminderList.list)|] == old(reminderList.list)
        && var stored := reminderList.list[|old(reminderList.list)|];
        && stored == old(reminder).(time := stored.time)
        && Hour(stored.time) == old(hours) && Minute(stored.time) == old(minutes) && Second(stored.time) == 0
        && !IsNotFilled(stored)
        && reminderList.file == Some(Overwrite(old(reminderList.file), Encode(reminderList.list), false))
        && hours == 0 && minutes == 0
        && reminder == NewReminder(today, timeNow)
        && !reminderWindowStatus
      ensures IsNotFilled(old(reminder)) || !saveClicked ==>
        && reminderList.list == old(reminderList.list) && reminderList.file == old(reminderList.file)
        && reminder == old(reminder) && hours == old(hours) && minutes == old(minutes)
        && reminderWindowStatus == old(reminderWindowStatus)
    {
      if !IsNotFilled(reminder) && saveClicked {
        var time := ParseHoursMinutesToNaiveTime();
        reminder := reminder.(time := time);
        ResetHoursMinutes();
        ghost var file, list := reminderList.file, reminderList.list;
        reminderList.SaveReminder(reminder);
        reminder := NewReminder(today, timeNow);
        reminderList.SaveListToJson(false);
        CommitSaveLoads(file, list, reminderList.list[|list|]);
        reminderWindowStatus := false;
      }
    }

    /** The "Delete Reminder" button of a listed item: deletes the first element equal
        to it and saves with truncation. When nothing matches, the application panics
        before saving; here the failure is returned and nothing changes. */
    method DeleteClicked(item: Reminder) returns (outcome: Outcome<StoreError>)
      requires Valid()
      modifies reminderList
      ensures Valid()
      ensures reminderList.sent == old(reminderList.sent)
      ensures item in old(reminderList.list) ==>
        && outcome == Pass
        && reminderList.list == RemoveFirst(old(reminderList.list), item)
        && reminderList.file == Some(Encode(reminderList.list))
      ensures item !in old(reminderList.list) ==>
        && outcome == Fail(NotFound)
        && reminderList.list == old(reminderList.list) && reminderList.file == old(reminderList.file)
    {
      outcome := reminderList.DeleteReminder(item);
      if outcome.Pass? {
        reminderList.SaveListToJson(true);
        DecodeEncode(reminderList.list);
      }
    }

    /** `handle_notifications`, at instant `now`: check the list, then deliver each
        flagged element of a snapshot of the checked list. Every element that was flagged
        or became due is Delivered, one notification is shown for each, and the file is
        rewritten when anything was delivered. */
    method HandleNotifications(now: Instant)
      requires Valid()
      modifies reminderList
      ensures Valid()
      ensures reminderList.list == Handled(old(reminderList.list), now)
      ensures |reminderList.sent| >= |old(reminderList.sent)|
      ensures reminderList.sent[..|old(reminderList.sent)|] == old(reminderList.sent)
      ensures multiset(reminderList.sent[|old(reminderList.sent)|..])
        == multiset(FlaggedNotices(MarkDue(old(reminderList.list), now)))
      ensures reminderList.file ==
        if Flagged(MarkDue(old(reminderList.list), now)) then Some(Encode(reminderList.list))
        else old(reminderList.file)
    {
      reminderList.CheckForNotification(now);
      var snapshot := reminderList.list;
      SendFlagged(reminderList, snapshot);
      PassOutcome(old(reminderList.list), now);
      assert reminderList.sent[|old(reminderList.sent)|..] == Shown(snapshot, |snapshot|);
    }
  }

  /** The state of the live store after the first `i` iterations of the loop of
      `handle_notifications` over the snapshot `s`, given the notices shown and the file
      before the loop. */
  ghost predicate AfterIterations(store: ReminderList, s: seq<Reminder>, i: nat, sent0: seq<Notice>, file0: Disk)
    requires i <= |s|
    reads store
  {
    && store.list == Partial(s, s[..i])
    && store.sent == sent0 + Shown(s, i)
    && store.file == if FlaggedBefore(s, i) then Some(Encode(Partial(s, s[..i]))) else file0
  }

  /** The loop of `handle_notifications`: it walks a copy of the checked list and sends
      each flagged element of the copy to the live list. */
  method SendFlagged(store: ReminderList, snapshot: seq<Reminder>)
    requires store.list == snapshot
    modifies store
    ensures store.list == Partial(snapshot, snapshot)
    ensures store.sent == old(store.sent) + Shown(snapshot, |snapshot|)
    ensures store.file ==
      if FlaggedBefore(snapshot, |snapshot|) then Some(Encode(store.list)) else old(store.file)
  {
    PartialNothing(snapshot);
    ghost var sent0, file0 := store.sent, store.file;
    for i := 0 to |snapshot|
      invariant AfterIterations(store, snapshot, i, sent0, file0)
    {
      SendIfFlagged(store, snapshot, i, sent0, file0);
    }
    assert snapshot[..|snapshot|] == snapshot;
  }

  /** One iteration of the loop: a flagged snapshot element is sent to the live list. */
  method SendIfFlagged(store: ReminderList, snapshot: seq<Reminder>, i: nat, ghost sent0: seq<Notice>, ghost file0: Disk)
    requires i < |snapshot| && AfterIterations(store, snapshot, i, sent0, file0)
    modifies store
    ensures AfterIterations(store, snapshot, i + 1, sent0, file0)
  {
    var item := snapshot[i];
    if item.shouldNotify {
      SendStep(snapshot, i);
      store.SendNotification(item);
    } else {
      SkipStep(snapshot, i);
    }
  }
}

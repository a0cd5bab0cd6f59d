/** `ReminderList`: the ordered, in-memory list of reminders, the file it is saved to,
    and the notifications it sends. The list is a `Vec<Reminder>` that the methods change
    in place; here it is the field `list`, which the methods reassign. */
module Store {
  import opened Results
  import opened Chrono
  import opened Reminders
  import opened JsonFile

  /** What a desktop notification shows: the title as its summary, and the description,
      date and time in its body. */
  datatype Notice = Notice(summary: string, description: string, date: Day, time: TimeOfDay)

  function NoticeOf(r: Reminder): Notice
  {
    Notice(r.title, r.description, r.date, r.time)
  }

  /** `n` copies of one notice. */
  function Repeat(n: Notice, count: nat): (ns: seq<Notice>)
    ensures |ns| == count && forall k :: 0 <= k < count ==> ns[k] == n
  {
    if count == 0 then [] else Repeat(n, count - 1) + [n]
  }

  datatype StoreError = NotFound

  /** The index that `iter().position(|x| *x == *reminder)` finds: the first element
      structurally equal to `r`. */
  function FirstIndex(xs: seq<Reminder>, r: Reminder): (i: nat)
    requires r in xs
    ensures i < |xs| && xs[i] == r && r !in xs[..i]
  {
    if xs[0] == r then 0
    else
      var j := FirstIndex(xs[1..], r);
      assert xs[..j + 1] == [xs[0]] + xs[1..][..j];
      j + 1
  }

  /** The list after `delete_reminder(r)` when some element equals `r`: that first
      element is gone, and the others keep their order. */
  function RemoveFirst(xs: seq<Reminder>, r: Reminder): (ys: seq<Reminder>)
    requires r in xs
    ensures |ys| == |xs| - 1
    ensures multiset(ys) == multiset(xs) - multiset{r}
  {
    var i := FirstIndex(xs, r);
    assert xs == xs[..i] + [xs[i]] + xs[i + 1..];
    xs[..i] + xs[i + 1..]
  }

  /** Removing the first match splits the list around the first occurrence: whatever
      prefix holds no copy of `r`, the element after it is the one removed. */
  lemma {:induction false} RemoveFirstAround(p: seq<Reminder>, r: Reminder, s: seq<Reminder>)
    requires r !in p
    ensures r in p + [r] + s
    ensures RemoveFirst(p + [r] + s, r) == p + s
  {
    var xs := p + [r] + s;
    assert xs[|p|] == r;
    FirstIndexUnique(xs, r, |p|);
    var i := FirstIndex(xs, r);
    assert xs[..i] == p;
    assert xs[i + 1..] == s;
  }

  /** `save_reminder(r)` then `delete_reminder(r)` restores the list when `r` was not in it
      before. When it was, the earlier copy is removed and the new one stays at the end. */
  lemma {:induction false} AppendThenRemove(xs: seq<Reminder>, r: Reminder)
    ensures r !in xs ==> RemoveFirst(xs + [r], r) == xs
    ensures r in xs ==> RemoveFirst(xs + [r], r) == RemoveFirst(xs, r) + [r]
  {
    if r !in xs {
      RemoveFirstAround(xs, r, []);
      assert xs + [r] + [] == xs + [r];
    } else {
      var i := FirstIndex(xs, r);
      var p, s := xs[..i], xs[i + 1..];
      assert xs == p + [r] + s;
      RemoveFirstAround(p, r, s + [r]);
      assert xs + [r] == p + [r] + (s + [r]);
      RemoveFirstAround(p, r, s);
      assert p + (s + [r]) == (p + s) + [r];
    }
  }

  /** With a duplicate the round trip can fail: from `[r, a]`, appending `r` and deleting
      `r` gives `[a, r]`. */
  lemma AppendThenRemoveWithDuplicate(r: Reminder, a: Reminder)
    requires a != r
    ensures RemoveFirst([r, a] + [r], r) == [a, r] != [r, a]
  {
    RemoveFirstAround([], r, [a, r]);
    assert [r, a] + [r] == [] + [r] + [a, r];
    assert [a, r][0] != [r, a][0];
  }

  /** The list after `check_for_notification` at instant `now`: every element that is due
      gets `shouldNotify` set; nothing else about any element changes, the flag is never
      cleared, and the length and order stay. */
  function MarkDue(xs: seq<Reminder>, now: Instant): (ys: seq<Reminder>)
    ensures |ys| == |xs|
    ensures forall i :: 0 <= i < |xs| ==> ys[i].shouldNotify == (xs[i].shouldNotify || IsDue(xs[i], now))
    ensures forall i :: 0 <= i < |xs| ==> ys[i] == xs[i].(shouldNotify := ys[i].shouldNotify)
  {
    seq(|xs|, i requires 0 <= i < |xs| => Checked(xs[i], now))
  }

  /** The list after `send_notification(r)` (before saving): every element equal to `r` is
      Delivered, and every other element is as it was. */
  function DeliverMatching(xs: seq<Reminder>, r: Reminder): (ys: seq<Reminder>)
    ensures |ys| == |xs|
    ensures forall i :: 0 <= i < |xs| ==> ys[i] == if xs[i] == r then MarkDelivered(xs[i]) else xs[i]
    ensures forall i :: 0 <= i < |xs| ==> ys[i].didNotify == (xs[i].didNotify || xs[i] == r)
  {
    seq(|xs|, i requires 0 <= i < |xs| => if xs[i] == r then MarkDelivered(xs[i]) else xs[i])
  }

  /** A delivered element is left exactly as it is by a check at any instant. */
  lemma {:induction false} MarkDueKeepsDelivered(xs: seq<Reminder>, now: Instant, i: nat)
    requires i < |xs| && xs[i].didNotify
    ensures MarkDue(xs, now)[i] == xs[i]
  {
    var ys := MarkDue(xs, now);
    assert !IsDue(xs[i], now);
    assert ys[i] == xs[i].(shouldNotify := xs[i].shouldNotify);
  }

  /** `iter().position(...)`, the scan behind `delete_reminder`. */
  method Position(xs: seq<Reminder>, r: Reminder) returns (p: Option<nat>)
    ensures p.None? <==> r !in xs
    ensures p.Some? ==> p.value < |xs| && xs[p.value] == r && r !in xs[..p.value]
  {
    var i := 0;
    while i < |xs|
      invariant 0 <= i <= |xs|
      invariant r !in xs[..i]
    {
      if xs[i] == r {
        return Some(i);
      }
      assert xs[..i + 1] == xs[..i] + [xs[i]];
      i := i + 1;
    }
    assert xs[..i] == xs;
    return None;
  }

  lemma {:induction false} FirstIndexUnique(xs: seq<Reminder>, r: Reminder, i: nat)
    requires i < |xs| && xs[i] == r && r !in xs[..i]
    ensures FirstIndex(xs, r) == i
  {
  }

  class ReminderList {
    /** The reminders, in insertion order. */
    var list: seq<Reminder>
    /** The contents of `output.json`, the file the list is saved to. */
    var file: Disk
    /** Every desktop notification shown so far, in order. */
    ghost var sent: seq<Notice>

    /** `ReminderList::default()`, for a file that loads; a file that does not parse ends
        the process (see `LoadList`). */
    constructor Default(disk: Disk)
      requires LoadList(disk).Ok?
      ensures list == LoadList(disk).value && file == disk && sent == []
    {
      list := LoadList(disk).value;
      file := disk;
      sent := [];
    }

    /** `list()`: read access to the reminders. */
    function List(): seq<Reminder>
      reads this
    {
      list
    }

    /** `save_reminder`: appends a copy at the end; the file is not touched. */
    method SaveReminder(reminder: Reminder)
      modifies this`list
      ensures list == old(list) + [reminder]
    {
      list := list + [reminder];
    }

    /** `delete_reminder`: removes the first element equal to `reminder`. When there is
        none the application panics with "not found"; here the list stays as it was and
        the failure is returned. */
    method DeleteReminder(reminder: Reminder) returns (outcome: Outcome<StoreError>)
      modifies this`list
      ensures reminder in old(list) ==> outcome == Pass && list == RemoveFirst(old(list), reminder)
      ensures reminder !in old(list) ==> outcome == Fail(NotFound) && list == old(list)
    {
      var position := Position(list, reminder);
      match position
      case None =>
        outcome := Fail(NotFound);
      case Some(i) =>
        FirstIndexUnique(list, reminder, i);
        list := list[..i] + list[i + 1..];
        outcome := Pass;
    }

    /** `save_list_to_json(truncate)`: writes the encoding of the list to the file,
        creating it if needed. */
    method SaveListToJson(truncate: bool)
      modifies this`file
      ensures file == Some(Overwrite(old(file), Encode(list), truncate))
    {
      file := Some(Overwrite(file, Encode(list), truncate));
    }

    /** `check_for_notification`, with the current local time passed in as `now`. */
    method CheckForNotification(now: Instant)
      modifies this`list
      ensures list == MarkDue(old(list), now)
    {
      for i := 0 to |list|
        invariant |list| == |old(list)|
        invariant forall j :: 0 <= j < i ==> list[j] == Checked(old(list)[j], now)
        invariant forall j :: i <= j < |list| ==> list[j] == old(list)[j]
      {
        var item := list[i];
        var time := MinusHours(Combine(item.date, item.time), item.notifyWhen);
        if Hour(TimeOf(time)) == Hour(TimeOf(now)) && Minute(TimeOf(time)) == Minute(TimeOf(now))
           && DateOf(time) == DateOf(now) && item.didNotify == false
        {
          list := list[i := item.(shouldNotify := true)];
        }
      }
    }

    /** `send_notification`: every element equal to `reminder` becomes Delivered and
        shows one notification; then the list is saved with truncation, so the file holds
        exactly its encoding. */
    method SendNotification(reminder: Reminder)
      modifies this`list, this`file, this`sent
      ensures list == DeliverMatching(old(list), reminder)
      ensures sent == old(sent) + Repeat(NoticeOf(reminder), multiset(old(list))[reminder])
      ensures file == Some(Encode(list))
    {
      for i := 0 to |list|
        invariant |list| == |old(list)|
        invariant forall j :: 0 <= j < i ==>
          list[j] == if old(list)[j] == reminder then MarkDelivered(old(list)[j]) else old(list)[j]
        invariant forall j :: i <= j < |list| ==> list[j] == old(list)[j]
        invariant sent == old(sent) + Repeat(NoticeOf(reminder), multiset(old(list)[..i])[reminder])
      {
        assert old(list)[..i + 1] == old(list)[..i] + [old(list)[i]];
        var item := list[i];
        if item == reminder {
          list := list[i := item.(didNotify := true, shouldNotify := false)];
          sent := sent + [NoticeOf(list[i])];
        }
      }
      assert old(list)[..|list|] == old(list);
      SaveListToJson(true);
    }
  }
}

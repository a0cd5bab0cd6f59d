/** The backing file `output.json` and the derived serde encoding of the reminder list.
    The JSON text is abstracted as a sequence of tokens (one per JSON scalar, plus the
    brackets of the outer array); the record fields appear in declaration order. The
    decoder accepts exactly what the encoder writes and, like `serde_json::from_str`,
    rejects anything left over after the closing bracket. */
module JsonFile {
  import opened Results
  import opened Chrono
  import opened Reminders

  datatype Token = ArrayOpen | ArrayClose | Text(s: string) | Number(n: int) | Flag(b: bool)

  /** The contents of `output.json`. */
  type Contents = seq<Token>

  /** `None` when the file does not exist. */
  type Disk = Option<Contents>

  const RecordWidth: nat := 7

  function EncodeReminder(r: Reminder): (ts: seq<Token>)
    ensures |ts| == RecordWidth
  {
    [Text(r.title), Text(r.description), Number(r.date), Number(r.time),
     Number(r.notifyWhen), Flag(r.shouldNotify), Flag(r.didNotify)]
  }

  /** Reads one record from its seven tokens; `None` when a token has the wrong kind or
      the time is out of range. */
  function DecodeReminder(ts: seq<Token>): (r: Option<Reminder>)
    requires |ts| == RecordWidth
    ensures r.Some? ==> EncodeReminder(r.value) == ts
  {
    if ts[0].Text? && ts[1].Text? && ts[2].Number? && ts[3].Number? && 0 <= ts[3].n < SecondsPerDay
       && ts[4].Number? && ts[5].Flag? && ts[6].Flag?
    then Some(Reminder(ts[0].s, ts[1].s, ts[2].n, ts[3].n, ts[4].n, ts[5].b, ts[6].b))
    else None
  }

  lemma {:induction false} DecodeEncodeReminder(r: Reminder)
    ensures DecodeReminder(EncodeReminder(r)) == Some(r)
  {
  }

  function EncodeItems(xs: seq<Reminder>): (ts: seq<Token>)
    ensures |ts| == 7 * |xs|
  {
    if xs == [] then [] else EncodeReminder(xs[0]) + EncodeItems(xs[1..])
  }

  /** `serde_json::to_writer(file, &list)`. */
  function Encode(xs: seq<Reminder>): (ts: Contents)
    ensures |ts| == 7 * |xs| + 2 && ts[0] == ArrayOpen && ts[|ts| - 1] == ArrayClose
  {
    [ArrayOpen] + EncodeItems(xs) + [ArrayClose]
  }

  /** Decodes the records that follow the opening bracket, up to a closing bracket that
      must be the last token. */
  function DecodeItems(ts: seq<Token>): Option<seq<Reminder>>
    decreases |ts|
  {
    if |ts| == 0 then None
    else if ts[0] == ArrayClose then (if |ts| == 1 then Some([]) else None)
    else if |ts| < RecordWidth then None
    else match DecodeReminder(ts[..RecordWidth])
      case None => None
      case Some(r) =>
        match DecodeItems(ts[RecordWidth..])
        case None => None
        case Some(rest) => Some([r] + rest)
  }

  /** `serde_json::from_str` followed by `from_value` into the list. */
  function Decode(ts: Contents): Option<seq<Reminder>>
  {
    if |ts| > 0 && ts[0] == ArrayOpen then DecodeItems(ts[1..]) else None
  }

  lemma {:induction false} DecodeItemsEncode(xs: seq<Reminder>, tail: seq<Token>)
    ensures DecodeItems(EncodeItems(xs) + [ArrayClose] + tail) == if tail == [] then Some(xs) else None
    decreases |xs|
  {
    var ts := EncodeItems(xs) + [ArrayClose] + tail;
    if xs == [] {
      assert ts == [ArrayClose] + tail;
    } else {
      var rest := EncodeItems(xs[1..]) + [ArrayClose] + tail;
      assert ts == EncodeReminder(xs[0]) + rest;
      assert ts[..RecordWidth] == EncodeReminder(xs[0]);
      assert ts[RecordWidth..] == rest;
      DecodeEncodeReminder(xs[0]);
      DecodeItemsEncode(xs[1..], tail);
      assert [xs[0]] + xs[1..] == xs;
    }
  }

  /** Round trip: decoding what was written gives back the list, field for field. */
  lemma {:induction false} DecodeEncode(xs: seq<Reminder>)
    ensures Decode(Encode(xs)) == Some(xs)
  {
    DecodeItemsEncode(xs, []);
    assert Encode(xs)[1..] == EncodeItems(xs) + [ArrayClose] + [];
  }

  /** Anything after the closing bracket makes the whole file unreadable. */
  lemma {:induction false} TrailingTokensRejected(xs: seq<Reminder>, tail: seq<Token>)
    requires tail != []
    ensures Decode(Encode(xs) + tail) == None
  {
    var ts := Encode(xs) + tail;
    assert ts == [ArrayOpen] + (EncodeItems(xs) + [ArrayClose] + tail);
    assert ts[1..] == EncodeItems(xs) + [ArrayClose] + tail;
    DecodeItemsEncode(xs, tail);
  }

  lemma {:induction false} EncodeItemsOfDecodeItems(ts: seq<Token>)
    requires DecodeItems(ts).Some?
    ensures EncodeItems(DecodeItems(ts).value) + [ArrayClose] == ts
    decreases |ts|
  {
    if ts[0] == ArrayClose {
      assert ts == [ArrayClose];
    } else {
      var r := DecodeReminder(ts[..RecordWidth]).value;
      var rest := DecodeItems(ts[RecordWidth..]).value;
      EncodeItemsOfDecodeItems(ts[RecordWidth..]);
      assert ([r] + rest)[1..] == rest;
      assert ts == ts[..RecordWidth] + ts[RecordWidth..];
    }
  }

  /** The encoding is canonical: the only text that decodes to a list is its encoding. */
  lemma {:induction false} EncodeDecode(ts: Contents)
    requires Decode(ts).Some?
    ensures Encode(Decode(ts).value) == ts
  {
    EncodeItemsOfDecodeItems(ts[1..]);
    assert ts == [ts[0]] + ts[1..];
  }

  /** What opening `output.json` with `write(true).create(true).truncate(truncate)` and
      writing `data` leaves in it: the new data from the start, and, when the file was not
      truncated and was longer, its old tail beyond the new length. */
  function Overwrite(before: Disk, data: Contents, truncate: bool): (after: Contents)
    ensures |after| >= |data| && after[..|data|] == data
    ensures |after| > |data| <==> !truncate && before.Some? && |before.value| > |data|
    ensures |after| > |data| ==> after[|data|..] == before.value[|data|..]
  {
    if truncate || before.None? || |before.value| <= |data| then data
    else data + before.value[|data|..]
  }

  datatype LoadError = Corrupt

  /** `ReminderList::default()`: a missing file and an empty file both give the empty
      list; any other contents are parsed, and a parse failure ends the process (here an
      error value). */
  function LoadList(disk: Disk): (r: Result<seq<Reminder>, LoadError>)
    ensures disk.None? ==> r == Ok([])
    ensures disk == Some([]) ==> r == Ok([])
    ensures disk.Some? && disk.value != [] ==>
      (r.Ok? <==> Decode(disk.value).Some?) && (r.Ok? ==> Encode(r.value) == disk.value)
  {
    match disk
    case None => Ok([])
    case Some(ts) =>
      if ts == [] then Ok([])
      else match Decode(ts)
        case None => Err(Corrupt)
        case Some(xs) => EncodeDecode(ts); Ok(xs)
  }

  /** After a truncating save the file loads back as exactly the saved list. */
  lemma {:induction false} LoadAfterTruncatingSave(before: Disk, xs: seq<Reminder>)
    ensures LoadList(Some(Overwrite(before, Encode(xs), true))) == Ok(xs)
  {
    DecodeEncode(xs);
  }

  /** A save without truncation over a longer file leaves old tokens behind the new
      closing bracket, and the next load fails. */
  lemma {:induction false} ShorterUntruncatedSaveCorrupts(before: Contents, xs: seq<Reminder>)
    requires |before| > |Encode(xs)|
    ensures LoadList(Some(Overwrite(Some(before), Encode(xs), false))) == Err(Corrupt)
  {
    var after := Overwrite(Some(before), Encode(xs), false);
    assert after == Encode(xs) + after[|Encode(xs)|..];
    TrailingTokensRejected(xs, after[|Encode(xs)|..]);
  }

  /** A save without truncation is exact on the commit path: when the file holds the
      list and one reminder has been appended since, the new text is longer than the old,
      so nothing of the old text survives. */
  lemma {:induction false} AppendUntruncatedSaveIsExact(xs: seq<Reminder>, r: Reminder)
    ensures Overwrite(Some(Encode(xs)), Encode(xs + [r]), false) == Encode(xs + [r])
    ensures LoadList(Some(Overwrite(Some(Encode(xs)), Encode(xs + [r]), false))) == Ok(xs + [r])
  {
    DecodeEncode(xs + [r]);
  }

  /** The commit path's save without truncation keeps the file loadable: when the file
      loads as `xs` and `r` has been appended since, the file afterwards loads as
      `xs + [r]`. */
  lemma {:induction false} CommitSaveLoads(file: Disk, xs: seq<Reminder>, r: Reminder)
    requires LoadList(file) == Ok(xs)
    ensures LoadList(Some(Overwrite(file, Encode(xs + [r]), false))) == Ok(xs + [r])
  {
    DecodeEncode(xs + [r]);
    if file.Some? && file.value != [] {
      AppendUntruncatedSaveIsExact(xs, r);
    }
  }
}

# Reminder store and notification pass

This project models the core of a small desktop reminder application.

- The library `reminder_api` keeps an ordered list of reminders and stores it in the JSON file `output.json`. It flags the reminders whose notification minute has come and delivers a desktop notification for each flagged one.
- The application `reminder_gui` drives the library from its window:
  - the theme switch;
  - the hour, minute and lead-time selectors;
  - the commit of a new reminder;
  - the delete button;
  - the notification pass that runs on every frame.

The model is split into modules:

- `Results`: `Option`, `Result` and a pass/fail `Outcome`.
- `Chrono`: the part of chrono's local date and time arithmetic the rule relies on. A date is a day number, a time of day is whole seconds since midnight, and an instant combines the two. The lemma `SameMinuteIffSameMinuteNumber` shows that the rule's three-way test (same hour, same minute, same date) means the two instants fall in the same sixty-second window.
- `Reminders`: the `Reminder` record and the rules that look at one reminder:
  - completeness;
  - the notify instant;
  - when a reminder is due;
  - the flag updates that move it from Pending to Due to Delivered, where Delivered is terminal.
- `JsonFile`: the contents of `output.json`, seen as a sequence of JSON tokens.
  - It defines the serde encoding of the list and its decoder. The decoder rejects any tokens left after the closing bracket.
  - It defines what a write with or without truncation leaves in the file.
  - It defines how the list is loaded at start-up.
- `Store`: the class `ReminderList`, which holds the list, the file and a ghost log of the notifications shown. Its methods are save, delete, save-to-file, check and send. Each is proved against a specification function on sequences.
- `Gui`: the class `ReminderGui` with its theme, selectors, commit and delete paths and `handle_notifications`.
  - `Handled` specifies the list after a notification pass.
  - `FlaggedNotices` specifies the notices it shows.
  - The lemmas beside them prove the delivery and at-most-once properties.

The model follows the code's save behaviour: a save without truncation keeps the old
tokens beyond the new text (`JsonFile.Overwrite`), and when the new text is shorter the
next load fails (`JsonFile.ShorterUntruncatedSaveCorrupts`). The application never
reaches that case from its own saves: the window's invariant `Gui.ReminderGui.Valid`
states that the file loads back as the list in memory, the constructor establishes it,
and the commit, delete and notification paths keep it (`JsonFile.CommitSaveLoads` is
the step for the commit's non-truncating save). Only a file written by something else
could be longer than the encoding of what it loads to; see "## Left out".

## Model

| member | source | states |
|---|---|---|
| Chrono.Combine | reminder_api/src/lib.rs:131 | `NaiveDateTime::new(date, time)`: the date and time of the combined instant read back as given |
| Chrono.FromHms | reminder_gui/src/main.rs:203 | `from_hms_opt` gives a time exactly when hour < 24, minute < 60 and second < 60, and that time's hour, minute and second read back as given |
| Chrono.MinuteNumber | reminder_api/src/lib.rs:132 | the minute number `t / 60` of an instant is made of its date, hour and minute |
| Chrono.SameMinuteIffSameMinuteNumber | reminder_api/src/lib.rs:132 | same hour, same minute and same date hold together exactly when the two instants have the same minute number |
| Reminders.PhaseOf | reminder_api/src/lib.rs:14-15 | the two flags classify a reminder as Pending, Due or Delivered, in both directions |
| Reminders.NewReminder | reminder_api/src/lib.rs:38-49 | a new reminder has empty texts, the given date and time, no lead time and neither flag set, so it is Pending and not filled |
| Reminders.CompleteIffBothTextsNonEmpty | reminder_api/src/lib.rs:50-55 | a reminder is complete (not `is_not_filled`) exactly when both title and description are non-empty |
| Reminders.NotifyInstant | reminder_api/src/lib.rs:131 | the notify instant lies `notify_when` hours before the reminder's date and time |
| Reminders.IsDueIffInNotifyMinute | reminder_api/src/lib.rs:132 | a reminder is due at `now` exactly when it is not delivered and `now` lies in the sixty-second window that starts at the whole minute of its notify instant |
| Reminders.Checked | reminder_api/src/lib.rs:132-134 | the check raises `should_notify` when due, never clears it, and changes no other field |
| Reminders.MarkDelivered | reminder_api/src/lib.rs:140-141 | sending sets `did_notify` and clears `should_notify`, so the reminder is Delivered |
| Reminders.DeliveredIsTerminal | reminder_api/src/lib.rs:129-141 | a Delivered reminder is unchanged by a check at any instant and stays Delivered when sent again |
| Reminders.PhaseTransitions | reminder_api/src/lib.rs:129-141 | the flags move forward only: Pending becomes Due exactly when due, Due stays Due when checked, and sending makes any of the three Delivered |
| JsonFile.DecodeReminder | reminder_api/src/lib.rs:6-17 | a record that decodes re-encodes to the same seven tokens |
| JsonFile.Encode | reminder_api/src/lib.rs:126 | the written text is an array with seven tokens per reminder between its brackets |
| JsonFile.DecodeEncode | reminder_api/src/lib.rs:81-85 | decoding what was written gives back the list, field for field |
| JsonFile.TrailingTokensRejected | reminder_api/src/lib.rs:81-82 | any tokens after the closing bracket make the whole text unparseable |
| JsonFile.EncodeDecode | reminder_api/src/lib.rs:81-85 | the encoding is canonical: any text that decodes is the encoding of what it decodes to |
| JsonFile.Overwrite | reminder_api/src/lib.rs:119-126 | the file starts with the new text. It is longer than that exactly when it was not truncated and the old file was longer, and then its tail is the old file's tail |
| JsonFile.LoadList | reminder_api/src/lib.rs:65-93 | a missing or empty file loads as the empty list. Any other file loads exactly when it parses, and what it loads re-encodes to the file |
| JsonFile.LoadAfterTruncatingSave | reminder_api/src/lib.rs:117-127 | after a truncating save the file loads back as exactly the saved list |
| JsonFile.ShorterUntruncatedSaveCorrupts | reminder_api/src/lib.rs:117-127 | a non-truncating save over a longer file leaves old tokens behind the closing bracket, and the next load fails |
| JsonFile.CommitSaveLoads | reminder_gui/src/main.rs:166-169 | when the file loads as the list, appending a reminder and saving without truncation leaves a file that loads as the new list |
| JsonFile.AppendUntruncatedSaveIsExact | reminder_gui/src/main.rs:166-169 | on the commit path (file holds the list, one reminder appended) the non-truncating save writes exactly the new encoding, which loads back as the new list |
| Store.FirstIndex | reminder_api/src/lib.rs:115 | `position` finds an index holding the reminder with no copy before it |
| Store.RemoveFirst | reminder_api/src/lib.rs:113-116 | deleting removes exactly one copy of the reminder: the length drops by one and the multiset loses one `r` |
| Store.RemoveFirstAround | reminder_api/src/lib.rs:115 | with no copy in prefix `p`, deleting from `p + [r] + s` gives `p + s`, so the order of the others is kept |
| Store.AppendThenRemove | reminder_api/src/lib.rs:107-116 | save-then-delete restores the list when the reminder was not in it; otherwise the earlier copy goes and the new one stays at the end |
| Store.AppendThenRemoveWithDuplicate | reminder_api/src/lib.rs:107-116 | with a duplicate the round trip changes the list: `[r, a]` becomes `[a, r]` |
| Store.MarkDue | reminder_api/src/lib.rs:129-136 | after a check, each element's `should_notify` is its old value or its being due; nothing else changes, and length and order stay |
| Store.MarkDueKeepsDelivered | reminder_api/src/lib.rs:129-136 | a check leaves every delivered element exactly as it was |
| Store.DeliverMatching | reminder_api/src/lib.rs:138-141 | every element equal to the argument becomes Delivered and every other element is unchanged; `did_notify` is set exactly on old delivered elements and on the matches |
| Store.Position | reminder_api/src/lib.rs:115 | the scan finds nothing exactly when there is no copy, and otherwise finds the first copy |
| Store.ReminderList.Default | reminder_api/src/lib.rs:65-93 | the list starts as what the file loads to, and nothing has been sent |
| Store.ReminderList.SaveReminder | reminder_api/src/lib.rs:107-112 | the reminder is appended at the end, and the file is not touched |
| Store.ReminderList.DeleteReminder | reminder_api/src/lib.rs:113-116 | when a copy exists, the first one is removed; otherwise the call fails with NotFound (the source panics) and the list is unchanged |
| Store.ReminderList.SaveListToJson | reminder_api/src/lib.rs:117-128 | the file becomes the encoding of the list written over the old file, with or without truncation |
| Store.ReminderList.CheckForNotification | reminder_api/src/lib.rs:129-136 | the loop leaves the list equal to `MarkDue` of the old list at `now` |
| Store.ReminderList.SendNotification | reminder_api/src/lib.rs:137-151 | every match is Delivered, one notice is shown per match in list order, and the file then holds exactly the encoding of the new list |
| Gui.Theme.Changed | reminder_gui/src/main.rs:27-32 | switching gives the other theme |
| Gui.ChangeThemeTwice | reminder_gui/src/main.rs:27-32 | switching twice restores the theme |
| Gui.FlaggedNotices | reminder_gui/src/main.rs:211-215 | the pass shows at most one notice per element, and none exactly when nothing is flagged |
| Gui.DeliverFlagged | reminder_gui/src/main.rs:211-215 | each flagged element is Delivered and the others are unchanged |
| Gui.Handled | reminder_gui/src/main.rs:209-216 | after a pass, each element that was flagged or due is Delivered and the others are unchanged. No element is left flagged, and every due element is delivered |
| Gui.SecondPassInSameMinuteIsQuiet | reminder_gui/src/main.rs:209-216 | at-most-once: a second pass in the same minute flags nothing, shows nothing and leaves the list as it is |
| Gui.Partial | reminder_gui/src/main.rs:211-215 | part-way through the loop, exactly the flagged snapshot elements already walked are Delivered |
| Gui.DeliveryStep | reminder_gui/src/main.rs:211-214 | sending a flagged snapshot element delivers its copies that are still flagged: all its copies the first time, none after |
| Gui.ShownAll | reminder_gui/src/main.rs:211-215 | up to order, the loop shows exactly one notice per flagged element of the snapshot, even when the list holds duplicates |
| Gui.QuietPassChangesNothing | reminder_gui/src/main.rs:209-216 | a pass that finds nothing flagged after the check leaves the list as it was |
| Gui.PassOutcome | reminder_gui/src/main.rs:209-216 | the loop's end state is the pass's specification: the list is `Handled`, the notices are `FlaggedNotices` up to order, a quiet pass changes nothing, and the rewritten file loads back as the new list |
| Gui.SendIfFlagged | reminder_gui/src/main.rs:212-214 | one iteration takes the live store from the state after `i` iterations to the state after `i + 1` |
| Gui.SendFlagged | reminder_gui/src/main.rs:211-215 | the loop delivers the flagged elements, logs the notices `Shown`, and rewrites the file exactly when some element was flagged |
| Gui.ReminderGui.Default | reminder_gui/src/main.rs:54-65 | the window starts dark and closed, with selectors at zero, a new reminder and the loaded list, and the file loads back as that list |
| Gui.ReminderGui.SwitchTheme | reminder_gui/src/main.rs:69-71 | the theme button switches to the other theme |
| Gui.ReminderGui.SelectHours | reminder_gui/src/main.rs:106-107 | the hour selector sets an hour in 0..=23 |
| Gui.ReminderGui.SelectMinutes | reminder_gui/src/main.rs:114-115 | the minute selector sets a minute in 0..=59 |
| Gui.ReminderGui.SelectNotifyWhen | reminder_gui/src/main.rs:125-126 | the lead-time selector sets a lead time in 0..=24 and changes no other field |
| Gui.ReminderGui.EditReminder | reminder_gui/src/main.rs:137-149 | the text fields and date picker set title, description and date only |
| Gui.ReminderGui.ParseHoursMinutesToNaiveTime | reminder_gui/src/main.rs:202-204 | the time built has the selected hour and minute and second 0 |
| Gui.ReminderGui.ResetHoursMinutes | reminder_gui/src/main.rs:205-208 | both selectors return to zero |
| Gui.ReminderGui.CommitReminder | reminder_gui/src/main.rs:162-172 | a complete reminder with "save" clicked is appended with the selected time, and the list is saved without truncation. The selectors reset, a fresh reminder is held and the window closes. Otherwise nothing changes. Either way the file still loads back as the list |
| Gui.ReminderGui.DeleteClicked | reminder_gui/src/main.rs:93-95 | delete removes the first copy and saves with truncation, so the file holds exactly the new list; with no copy it fails and nothing changes. The file still loads back as the list |
| Gui.ReminderGui.HandleNotifications | reminder_gui/src/main.rs:209-216 | the list becomes `Handled` of the old list at `now` and the notices shown are `FlaggedNotices` of the checked list, up to order. The file holds the new list when anything was flagged, and is untouched otherwise, so it still loads back as the list |

## Left out

- The egui rendering is not modelled: layout, fonts, visuals, buttons and windows. A click is a boolean argument and a selector choice is an argument.
- JsonFile.EncodeDecode: holds of the token model only. `serde_json::from_str` also accepts whitespace between tokens, object fields in any order and escaped strings, none of which the tokens represent, so a file the program did not write may load without being the encoding of what it loads to; over such a longer file the commit's save without truncation would leave a tail.
- JsonFile.LoadList: a file that holds only whitespace is not empty in the source (lib.rs:75) and fails to parse, which panics; the token model has no whitespace, so that file is `Some([])` here and loads as the empty list. The "re-encodes to the file" clause holds of the token model only, as for `JsonFile.EncodeDecode`.
- The JSON bytes are not modelled. The file is a sequence of tokens, one per scalar plus the outer brackets. So the byte length of a text does not depend on its values here: in real JSON, `true` and `false` differ in length. The tail kept by a non-truncating save is therefore measured in tokens.
- The desktop notification is a ghost log of notices (summary, description, date, time). The icon, the six-second timeout and the panic of `show().unwrap()` are not modelled.
- `Local::now()` is not read. The current instant is the parameter `now`, read once per check. The source reads the clock three times per element, and a minute boundary between those reads is not modelled.
- Calendar detail is not modelled. Dates are plain day numbers and times are whole seconds, so nanoseconds, leap seconds and the range limits of chrono's types are left out.
- File-system errors are not modelled. `read_to_string`, `open` and `to_writer` failures all panic in the source, and here they are assumed not to happen.
- Store.ReminderList.Default: a file that does not parse makes the source panic. The constructor instead requires `LoadList(disk).Ok?`, and `LoadList` models the failure as `Err(Corrupt)`.
- Gui.ReminderGui.ParseHoursMinutesToNaiveTime: requires the selector ranges instead of modelling the `expect` panic. The selectors offer no other values, and `Chrono.FromHms` models the failing case.
- The `Clone` impls, the `Default` impl for `Reminder` and the `Display` impl for `Theme` are not modelled separately. Cloning is value copying in this model.
- `Store.ReminderList.List` is a plain read accessor and has no contract of its own.
- `hours` and `minutes` are `u32` in the source and `nat` here. The selectors keep them far below the 32-bit bound.
- `notify_when` is `i64` in the source and an unbounded `int` here. The selector keeps it in 0..=24, so the subtraction of hours cannot overflow.

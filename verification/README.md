# Birthday bot, modelled in Dafny

The birthday bot keeps birthdays in a text file, `birthday.txt`. Each line holds
one record: `YYYY-MM-DD HH:MM:SS,name,phone`. A console menu offers five commands:

- add birthdays, which appends lines;
- update one birthday, which rewrites the whole file;
- clear the file;
- schedule a daily WhatsApp greeting for every birthday still ahead;
- exit.

This project models the core of `birthday_bot.py` and proves properties of the model.

The file is an `Option<string>`, where `None` means the file does not exist.
Everything a user types is passed in as a string parameter, and so is the
wall-clock reading. Every operation is a pure function of these inputs.

The modules follow the program's layers:

| file | module | what it models |
|---|---|---|
| `wrappers.dfy` | `Wrappers` | `Option` |
| `strings.dfy` | `Strings` | `str.strip()` (Python's `isspace` set), `str.split(',')` and the text-mode line iteration of a file (universal newlines: `\n`, `\r`, `\r\n`). It also covers zero-padded decimal fields and `int()` on a typed answer. |
| `calendar.dfy` | `Calendar` | `datetime` values (years 1..9999, month lengths with leap years), `strptime`/`strftime` for `%Y-%m-%d %H:%M:%S`, and instants as whole seconds since 0001-01-01 00:00:00. It also models the `%H:%M:%S` clock text that keys a daily job. |
| `store.dfy` | `RecordStore` | `load_birthdays`, `save_birthday`, `overwrite_birthdays` and `clear_birthdays` |
| `prompts.dfy` | `Prompts` | `add_birthdays` and `update_birthday` |
| `scheduler.dfy` | `Scheduler` | the decision `schedule_birthday_messages` makes for each record: passed, or a job with the adjusted target time and the clock key it is registered under |
| `menu.dfy` | `Menu` | the command selection of `main` |

How loading works in the code: each line is stripped, and an empty line is ignored. A line
that does not split into exactly three comma-separated fields is reported and skipped. The
first field is parsed with `strptime`. A date-time that does not parse raises inside the
`try` that wraps the whole loop. The exception handler then returns the records read so far,
so loading ends at that line, rather than skipping it. The model follows the code: `RecordStore.LoadIsPrefix` states that loading yields the
records before the first unparsable date-time. Because `update_birthday` rewrites the file
from what was loaded, an update also drops every line the loader skipped or never reached
(`Prompts.UpdateRewritesFile`).

A record round-trips through the file only when it is `Storable`:

- its name and phone hold no comma and no line terminator;
- its phone does not end in whitespace, which the per-line strip would remove.

`add_birthdays` does not check this. A name containing a comma is written, and the line is
then skipped as malformed on every load.

## Model

| member | source | states |
|---|---|---|
| Strings.StripPadded | birthday_bot.py:11 | `strip()` removes exactly the surrounding whitespace when the text itself begins and ends with a non-space character |
| Strings.Split | birthday_bot.py:13 | `split(',')` yields at least one part; no part contains a comma; joining the parts with commas gives the line back |
| Strings.SplitJoin | birthday_bot.py:13 | parts free of commas, joined with commas, split back into the same parts (split is the inverse of join) |
| Strings.LinesTerminated | birthday_bot.py:9-10 | iterating the lines of text written as terminated lines without terminators gives exactly those lines |
| Strings.LinesAppend | birthday_bot.py:9-10 | appending to text that ends a line adds lines after the old ones without changing them, unless the appended text starts with `\n` (a `\r\n` pair would fuse) |
| Strings.IntRoundTrip | birthday_bot.py:49 | `int()` reads back the decimal text of any integer with whitespace around it exactly when that whitespace holds none of the separators U+001C..U+001F, which `int()` does not skip |
| Calendar.ParseIff | birthday_bot.py:16 | parsing succeeds with date-time `t` exactly when `t` is a valid date-time and the text is its canonical rendering |
| Calendar.ParseFormat | birthday_bot.py:28 | parsing the `strftime` text of a valid date-time gives the same date-time back |
| Calendar.FormatParse | birthday_bot.py:16 | text that parses is exactly the rendering of what it parses to |
| Calendar.SecondsOrdered | birthday_bot.py:90 | comparing date-times field by field agrees with comparing their instants, for both strict order and equality |
| Calendar.ClockTextOf | birthday_bot.py:95 | the clock text of a date-time's instant is its zero-padded hour, minute and second |
| Calendar.ClockTextSameTimeOfDay | birthday_bot.py:95 | Two instants have the same clock text exactly when their remainders after division by 86400 seconds are equal. |
| Calendar.ClockTextDaily | birthday_bot.py:95 | instants a whole number of days apart have the same clock text |
| RecordStore.Classify | birthday_bot.py:11-18 | a line counts as blank exactly when it is all whitespace; a record read from a line without terminators can be written back |
| RecordStore.Load | birthday_bot.py:6-23 | a missing file loads as no records, and every loaded record is storable |
| RecordStore.LoadIsPrefix | birthday_bot.py:6-23 | loading yields the records held by the lines before the first line with an unparsable date-time, ignoring blank and malformed lines; the file reads completely exactly when no such line exists |
| RecordStore.LoadSkipsLine | birthday_bot.py:12-18 | a blank line, or one without exactly three fields, changes neither what the rest loads as nor whether it reads completely |
| RecordStore.LoadSerialize | birthday_bot.py:32-36 | storable records written one per line load back as the same records in order; the text reads completely and ends a line |
| RecordStore.Overwrite | birthday_bot.py:32-38 | after overwriting with storable records, loading gives exactly those records |
| RecordStore.LoadOverwriteLoad | birthday_bot.py:32-36 | rewriting the loaded list reproduces it on the next load |
| RecordStore.Clear | birthday_bot.py:40-45 | after clearing, the file exists, loads as no records, reads completely and ends a line |
| RecordStore.LoadSave | birthday_bot.py:25-30 | appending a storable record to a file that ends a line and reads completely loads as the old records followed by the new one, and keeps both conditions |
| RecordStore.SaveAllContent | birthday_bot.py:50-56 | saving records one by one appends exactly their lines; saving none leaves the file, even a missing one, untouched |
| RecordStore.LoadSaveAll | birthday_bot.py:50-56 | after appending storable records one by one, loading gives the old records followed by the new ones in order |
| Prompts.Accepted | birthday_bot.py:50-58 | the saved records are the answers' records in order; at most the count and at most the entries given; when the batch stops early, the next entry asked for has an unparsable date-time |
| Prompts.AddNothing | birthday_bot.py:49-50 | a count that is not an integer, or is zero or negative, leaves the file as it was |
| Prompts.AddContent | birthday_bot.py:47-59 | the file gains exactly the lines of the accepted records after its old content, and is untouched when none is accepted |
| Prompts.AddStopsAtBadTimestamp | birthday_bot.py:55-58 | the first unparsable date-time within the count ends the batch, keeping exactly the records typed before it |
| Prompts.AddTakesCount | birthday_bot.py:50-56 | with enough valid answers, exactly the requested number of records is added |
| Prompts.LoadAfterAdd | birthday_bot.py:47-59 | after a batch of storable records, loading gives the old records followed by the batch |
| Prompts.SelectShown | birthday_bot.py:65-73 | typing the number `list_birthdays` shows beside a record, with whitespace other than U+001C..U+001F around it, selects that record |
| Prompts.UpdateBirthday | birthday_bot.py:67-85 | the file is unchanged when the position is not an integer, when it is outside 1 to the number of loaded records, or when the replacement date-time does not parse |
| Prompts.LoadAfterUpdate | birthday_bot.py:78-80 | after a successful update, loading gives a list of the same length with only the selected record replaced |
| Prompts.UpdateRewritesFile | birthday_bot.py:69-80 | a successful update writes exactly the loaded list with one record replaced, one line per record, so lines the loader skipped are gone |
| Scheduler.Decide | birthday_bot.py:87-98 | a record has passed exactly when its target is not after now; a target less than two minutes ahead overflows exactly when two minutes from now is past 9999-12-31 23:59:59 (the uncaught `OverflowError` of line 93); otherwise its target time becomes two minutes from now when that is later, and the job is keyed by the clock text of that time |
| Scheduler.ScheduleAll | birthday_bot.py:88-98 | the loop decides the records in order, each against its own clock reading, and stops right after the first overflow; records after it get no decision |
| Scheduler.ScheduleAllReachesEnd | birthday_bot.py:88-98 | when every clock reading is at least two minutes before 9999-12-31 23:59:59, every record is decided |
| Scheduler.ScheduleAllJobs | birthday_bot.py:88-95 | each record the loop reaches has passed exactly when its date-time is not after its own clock reading; away from the end of the date range it otherwise gets a job; a job's target time is the later of the date-time and two minutes after the reading, keyed by its clock text |
| Scheduler.KeyOfDistantTarget | birthday_bot.py:95 | a target at least two minutes ahead keeps its time and is keyed by its own hour, minute and second |
| Scheduler.NearTargetClamped | birthday_bot.py:92-94 | a target less than two minutes ahead has its target time moved to exactly two minutes from now, when that is not past 9999-12-31 23:59:59 |
| Scheduler.NearTargetOverflows | birthday_bot.py:92-93 | a target less than two minutes ahead, when two minutes from now is past 9999-12-31 23:59:59, ends in an overflow and no job |
| Scheduler.KeyIgnoresDate | birthday_bot.py:95 | two distant targets get the same job key exactly when they agree on hour, minute and second, whatever their dates |
| Scheduler.SameClockText | birthday_bot.py:95 | two date-times' instants have the same clock text exactly when their hours, minutes and seconds agree |
| Scheduler.KeyRepeatsDaily | birthday_bot.py:95 | a job's key is also the clock text of its target time shifted by any whole number of days |
| Scheduler.PassedIffNotAfter | birthday_bot.py:90 | with the clock given as a date-time, a record has passed exactly when its target is not strictly after it |
| Menu.Dispatch | birthday_bot.py:109-128 | a command is chosen exactly when the stripped, lower-cased answer is one of the five words, and then it is that command's word; otherwise the option is invalid |
| Menu.KeywordsDistinct | birthday_bot.py:111-124 | the five command words are pairwise different |
| Menu.DispatchKeyword | birthday_bot.py:109-126 | each command word selects its own command |
| Menu.DispatchPadded | birthday_bot.py:109 | a command word in any letter case, with whitespace on either side, selects its command |
| Menu.DispatchIgnoresCase | birthday_bot.py:109 | lower-casing the answer first does not change the command selected |
| Menu.StripLower | birthday_bot.py:109 | lower-casing commutes with stripping |

## Left out

- `send_birthday_message` (lines 100-103) is not modelled. It calls `pywhatkit`, which drives a browser over the network and reads the clock.
- The `schedule` library is not modelled. `Scheduler.Decide` gives the adjusted target time and the `HH:MM:SS` key that would be registered. The job registry, `run_pending` and the one-second sleep loop (lines 116-118) are left out as library and time behaviour.
- The registered job first runs at the next occurrence of its key on the wall clock, which is within 24 hours, and then daily. It does not run on the target time's date. Only the key is modelled; when the job runs is the library's behaviour.
- `datetime.now()` is a parameter. For each record it is a separate reading, floored to whole seconds. Targets are whole seconds, so the flooring changes neither the passed/future decision nor the job key. It can move a clamped target time by less than one second. `datetime.max` is 9999-12-31 23:59:59.999999, so two minutes after the exact reading overflows exactly when two minutes after the floored reading is past 9999-12-31 23:59:59.
- `total_seconds()` is floating point. Delays are exact integer differences of seconds.
- Printed messages, `list_birthdays` (lines 61-65, display only) and the prompts' texts are left out as console output.
- Failures other than a missing file are left out: failed writes (lines 29-30, 37-38, 44-45) and read or decoding errors. File operations always succeed in the model.
- End of input inside `add_birthdays` ends the batch, as the exception it raises does. `update_birthday` is always given its three answers. End of input there raises and leaves the file unchanged; that path is not modelled.
- `main`'s loop is left out. Only the selection of a command from one answer is modelled (`Menu.Dispatch`).
- Calendar.Parse: accepts only the canonical zero-padded form. `strptime` also accepts one-digit month, day, hour, minute and second fields, a day padded with a space (` 1`), runs of whitespace for the space, and non-ASCII decimal digits. Those inputs parse to `None` here, although Python would accept them.
- Calendar.Format: always writes a four-digit zero-padded year. Some C libraries under `strftime` print years below 1000 without padding.
- Strings.ParseInt: accepts an optional sign and ASCII digits, with whitespace other than U+001C..U+001F around them. `int()` also accepts `_` between digits and non-ASCII decimal digits; those answers are rejected here.
- Strings.IntRoundTrip: holds for integers of any length. Python 3.11 and later, and patched 3.7 to 3.10, refuse `int()` on more than 4300 digits. That limit depends on the interpreter version and is not modelled.
- Menu.Normalize: lower-cases ASCII letters only. The only non-ASCII character whose lower case is an ASCII letter is KELVIN SIGN, which becomes `k`. No command word contains `k`, so the selection is the same.

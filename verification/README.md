# Grade monitor: the grade-diff core in Dafny

`check_grades.py` logs into a university's student portal for each configured account,
reads the semester's grade table, and posts a Discord message when the number of settled
grades has grown since the last run. The count seen last time is kept in a per-account
record file. This project models the part of that script that decides what happens once
the table's rows are in hand:

- the row loop of `GradeMonitor.run`. Each row's text is stripped. A row is kept when it
  contains a course-category marker (必修, 選修 or 通識) and not the pending marker
  (成績未送達). A kept row gives a course name, which is the first run of characters in
  U+4E00..U+9FA5, and a score, which is the last whitespace-separated token made only of
  digits. These go into the `results` dict (modules `Rows`, `Snapshots`);
- `get_last_count`: the record file's stripped content read as an integer. It is 0 when
  the file is missing or `int()` rejects the content (module `Checkpoint`);
- the comparison: attempt to notify exactly when `len(results)` exceeds the recorded
  count, and write `str(len(results))` to the record when that post does not raise
  (module `Monitor`);
- the message `send_discord_notification` builds. It has one field per dict item, in the
  dict's order (module `Notifier`).

`Text` models the Python string built-ins these rely on: `str.strip()`, `in` on strings,
`str.split()`, `str.isdigit()`, `int()` and `str()`. `Wrappers` holds `Option` and `Result`.

The row loop is the method `Snapshots.BuildSnapshot`. It updates the order and the dict step
by step and is proved equal to the function `Snapshots.Extract`. `Monitor.GradeMonitor` is
a class whose `record` field stands for the record file and whose `outbox` field collects
posted messages. Its `Run` method is proved to change both exactly as the function
`Monitor.RunOnce` says, and the run's properties are proved about `RunOnce`.

Consequences of the code worth knowing:

- A kept row with no all-digit token aborts the whole run. Indexing the empty list raises,
  the account's `except` clause catches the exception, and the whole run ends with no
  message and no record write (`Rows.SettledRowWithoutNumberAborts`,
  `Snapshots.ExtractFailsIff`).
- The course name is the first CJK run of the row. In a row such as "必修 資料結構 3 90"
  that run is the category marker itself, so the entry is keyed "必修", not "資料結構"
  (`Rows.LeadingMarkerBecomesKey`).
- Every category marker is itself made of CJK characters, so the name search always finds
  something on a kept row. The "no name" failure cannot occur
  (`Rows.NameSearchNeverFails`).
- The record file's content is whatever `int()` accepts, including a negative number or a
  leading `+`. It is not limited to a non-negative count.
- When posting raises, the record is not written: the write follows the post inside the
  same `try`.

## Model

| member | source | states |
|---|---|---|
| Text.TrimStart | check_grades.py:106 | the result is a suffix of the input, everything cut is whitespace, and the result does not start with whitespace |
| Text.TrimEnd | check_grades.py:106 | the result is a prefix of the input, everything cut is whitespace, and the result does not end with whitespace |
| Text.Strip | check_grades.py:106 | `strip()`'s result neither starts nor ends with whitespace |
| Text.StripCutsOnlyWhitespace | check_grades.py:106 | the stripped text occurs in the original with only whitespace before and after it |
| Text.StripOfPadded | check_grades.py:62 | stripping a trimmed word padded with whitespace on both sides gives exactly that word |
| Text.ContainsIff | check_grades.py:107 | the substring test holds exactly when the pattern occurs at some position |
| Text.Split | check_grades.py:109 | every token `split()` returns is non-empty and free of whitespace |
| Text.SplitSkipsSpace | check_grades.py:109 | `split()` ignores a leading whitespace character of any kind |
| Text.SplitOfSpace | check_grades.py:109 | a string made only of whitespace splits into no tokens |
| Text.SplitSkipsPadding | check_grades.py:109 | `split()` ignores a leading run of whitespace of any length and kind |
| Text.SplitPadded | check_grades.py:109 | the first token is the first maximal run of non-whitespace characters, whatever whitespace surrounds it, and the rest is split the same way; with the empty-string case this determines the whole token list |
| Text.SplitJoin | check_grades.py:109 | splitting words joined by single spaces gives the words back |
| Text.NatToString | check_grades.py:117 | `str(n)` is a non-empty digit string with no leading zero unless n is 0 |
| Text.NatToStringValue | check_grades.py:117 | the digits of `str(n)` denote n |
| Text.ParseInt | check_grades.py:62 | `int()` succeeds exactly on an optional sign followed by digits, and a negative result has a leading minus |
| Text.LeadingZerosValue | check_grades.py:62 | leading zeros do not change the value of a digit string |
| Text.ParseIntOfZeroPadded | check_grades.py:62 | `int()` reads zeros followed by `str(n)` as n, with a `+` as n and with a `-` as -n |
| Text.ParseIntOfNatToString | check_grades.py:62 | `int(str(n)) == n`, also with a leading `+`, and `-` gives -n |
| Rows.CourseName | check_grades.py:108 | the search fails exactly when no character is in U+4E00..U+9FA5; otherwise it returns the first maximal run of such characters |
| Rows.FirstCjkRunUnique | check_grades.py:108 | the first maximal CJK run of a text is unique, so the search result is determined |
| Rows.LastDigitIndex | check_grades.py:109 | it finds the last all-digit token, or reports that none of the tokens is one |
| Rows.Score | check_grades.py:109 | the score is the last all-digit token of the split row; it is absent exactly when no token is all digits |
| Rows.ParseStripped | check_grades.py:107-110 | a stripped row is skipped exactly when it fails the marker filter |
| Rows.ParseRow | check_grades.py:105-110 | a row is skipped exactly when its stripped text fails the marker filter |
| Rows.ParseStrippedMeaning | check_grades.py:107-110 | a kept row's name is the first CJK run and its score the last all-digit token; each abort means its search found nothing |
| Rows.KeptRowWellFormed | check_grades.py:108-110 | a kept row's name is a non-empty CJK string and its score a digit string |
| Rows.SettledHasName | check_grades.py:107-108 | on any text that passes the filter, the name search succeeds |
| Rows.NameSearchNeverFails | check_grades.py:107-108 | no row aborts the loop for lack of a course name |
| Rows.CourseNameOfLeadingRun | check_grades.py:108 | a maximal CJK run at the start of the text is the name found |
| Rows.LeadingRunIsName | check_grades.py:108 | a CJK word at the head of a kept stripped row is its name |
| Rows.LeadingMarkerBecomesKey | check_grades.py:106-110 | a row starting with a category marker followed by a non-CJK character is keyed by the marker |
| Rows.SettledRowWithoutNumberAborts | check_grades.py:107-109 | a row that passes the filter but has no all-digit token aborts the loop |
| Snapshots.Put | check_grades.py:110 | `results[name] = score` sets that key, appends a new name to the order, keeps the order for an existing name, and keeps keys and order in agreement |
| Snapshots.SizeIsOrderLength | check_grades.py:113 | `len(results)` is the number of names in the dict's order |
| Snapshots.Step | check_grades.py:105-110 | one iteration keeps the dict well formed |
| Snapshots.Collect | check_grades.py:104-110 | the dict the loop produces is always well formed |
| Snapshots.ExtractErrorPersists | check_grades.py:105-110 | once a row has aborted the loop, later rows do not change the outcome |
| Snapshots.BuildSnapshot | check_grades.py:103-110 | the loop that updates the dict in place returns exactly `Extract(rows)` |
| Snapshots.CollectFailsIff | check_grades.py:105-110 | the fold fails exactly when some parse aborts, and then with the first abort's error |
| Snapshots.ExtractFailsIff | check_grades.py:105-110 | the loop fails exactly when some row aborts, and then with the error of the first such row |
| Snapshots.CollectKeys | check_grades.py:110 | the dict's keys are exactly the names of the kept parses |
| Snapshots.CollectLastWins | check_grades.py:110 | each key's score is that of the last kept parse with that name |
| Snapshots.ExtractContents | check_grades.py:104-113 | keys are exactly the kept rows' names, the size is their number, the last row wins, names are CJK and scores digit strings |
| Snapshots.ExtractIgnoresUnsettled | check_grades.py:107 | dropping the rows that fail the filter changes neither the dict nor the error |
| Checkpoint.ReadCount | check_grades.py:58-64 | a missing file or content that `int()` rejects reads as 0; only content starting with `-` reads as negative |
| Checkpoint.WriteCount | check_grades.py:117 | what is written is a digit string without surrounding whitespace |
| Checkpoint.ReadZeroPaddedLiteral | check_grades.py:58-64 | content that is a sign, leading zeros and `str(n)`, with whitespace around it, reads as n, or -n for a minus sign |
| Checkpoint.ReadCountOfParsed | check_grades.py:60-62 | an existing record reads as the value `int()` gives its stripped content |
| Checkpoint.ReadAfterWritePadded | check_grades.py:58-64 | a written count reads back unchanged even with whitespace around it |
| Checkpoint.ReadAfterWrite | check_grades.py:58-64 | reading the record right after writing n gives n |
| Notifier.CourseFieldInjective | check_grades.py:45 | a field determines its course and its score |
| Notifier.Fields | check_grades.py:45-46 | there is one field per dict item |
| Notifier.FieldsFollowOrder | check_grades.py:45-46 | field i shows the i-th course of the dict's order with that course's score |
| Notifier.FieldsCoverSnapshot | check_grades.py:45-46 | every dict item appears among the fields |
| Notifier.FieldNamesDistinct | check_grades.py:45-46 | no two fields carry the same name |
| Monitor.UpdateNeedsSnapshot | check_grades.py:101-117 | an update happens only after the page was read and extraction succeeded |
| Monitor.NotifyIffMoreGrades | check_grades.py:113-120 | posting is attempted exactly when the dict is larger than the recorded count; a message is sent exactly on an update; otherwise the record stays as it was |
| Monitor.WriteStoresCount | check_grades.py:115-117 | after an update the record reads back as the dict's size, which is larger than the previous count |
| Monitor.RunIsIdempotent | check_grades.py:113-120 | a second run on the same table after an update sends nothing and leaves the record as it is |
| Monitor.SentMessageListsSnapshot | check_grades.py:43-56 | the message sent carries the account in its title and one field per course, in dict order, with its score |
| Monitor.FirstRunNotifies | check_grades.py:58-64 | with no record file, any non-empty dict is notified and recorded |
| Monitor.CountScenarios | check_grades.py:113-120 | with 5 recorded and 6 extracted the record becomes "6"; with 6 recorded and 6 extracted nothing happens |
| Monitor.GradeMonitor.constructor | check_grades.py:35-41 | a monitor starts with its account id, the record's content and no posted messages |
| Monitor.GradeMonitor.SendNotification | check_grades.py:43-56 | the message is appended to the outbox exactly when posting does not raise |
| Monitor.GradeMonitor.Run | check_grades.py:101-123 | the outcome, the record and the outbox change exactly as `RunOnce` says for the record held before the run |

## Left out

- Browser navigation and login inside the `try` (check_grades.py:77-99 and the
  `find_elements` call at line 103) are not modelled. The page is a parameter: either the
  row texts, or `None` when one of those steps raised an exception that the `except` at
  lines 122-123 catches. The `sleep` calls and `driver.quit()` are not modelled either.
- Starting the browser driver (lines 68-74) is not modelled. It runs before the `try`, so
  an exception there is not caught: it escapes `run()` and ends the `__main__` loop, and
  the accounts after it are not checked. The model's runs always end in a `RunOutcome`.
- `requests.post` is a parameter that says whether posting raises. The HTTP response
  itself, the webhook URL and the password are not modelled.
- The footer's timestamp and the nesting of the fields in an `embeds` list are not
  modelled. The payload keeps the bot name, title, colour and fields.
- Console output (`print`) is not modelled. Each way a run ends is a `RunOutcome` value.
- File I/O is a value: the record is `None` when the file does not exist, or its text
  otherwise. `open()` failures and decoding errors are not modelled.
- The account list, the environment variables and the `__main__` loop (lines 13-31 and
  127-131) are not modelled. A `GradeMonitor` models one account's run. Accounts share no
  record file or webhook, but an uncaught driver-start failure in one account stops the
  loop before the accounts after it (see above).
- Rows.Score: a token counts as a number only when it is made of ASCII digits `0`-`9`.
  `str.isdigit()` also accepts other Unicode digits, such as full-width or superscript ones.
- Text.ParseInt: only an optional sign followed by ASCII digits is accepted. `int()` also
  accepts underscores between digits and non-ASCII decimal digits. The digit-count limit of
  recent CPython versions (`int()` raises above 4300 digits by default) is not modelled:
  the model accepts literals of any length.
- Checkpoint.ReadCount: because of that, a record holding more than 4300 digits reads as
  its value in the model, while the program's bare `except` turns the error into 0.

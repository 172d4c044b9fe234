# Call-log ingestion and reporting, modelled in Dafny

This project models the core of a small Python program (`src/main/main.py`). The program loads
two CSV files into an in-memory SQLite database and writes two CSV reports from it:

- the **user loader** (`load_and_clean_users`) checks the header `firstName,lastName`,
  clears the `users` table, strips every field, keeps rows with exactly two non-blank names,
  and numbers the kept rows 1, 2, 3, …;
- the **call-log loader** (`load_and_clean_call_logs`) drops the header row unread. It keeps
  rows that have five fields, integer `startTime`/`endTime`/`userId`, a non-empty phone number
  and a non-blank direction, and appends them to `callLogs` with fresh rowids. The table is
  never cleared;
- the **analytics writer** (`write_user_analytics`) groups the calls by `userId` and reports
  the average duration and the number of calls;
- the **ordered export** (`write_ordered_calls`) lists every call row ordered by
  (`userId`, `startTime`).

CSV input is given as rows already split into fields (`seq<seq<string>>`). Writer output is
the sequence of lines handed to `writerow`, each a sequence of `Field` values (a string, an
integer, or the average kept exactly as total and count).

Files and modules:

- `text.dfy` has two modules. `Wrappers` holds `Option`. `Text` models Python's `str.strip()`,
  `int(str)` and `str(int)` over ASCII.
- `ingest.dfy`, module `Ingest`, holds the table records and the row-cleaning rules. It also
  has the functions giving each table's contents after a load (`UsersAfterLoad`,
  `CallLogsAfterLoad`), and the lemmas about them.
- `reports.dfy`, module `Reports`, holds the two queries as functions on the call-log rows
  (`UserAnalytics`, `OrderedCalls`), the lines the writers emit, and the lemmas about them.
- `storage.dfy`, module `Storage`, holds class `Store`. Its `users` and `callLogs` fields are
  updated in place by the loader methods, whose loops are proved against the `Ingest`
  functions. It also holds the writer methods and `Run`, the entry point's call order.

Modelling decisions:

- SQLite gives a row inserted into an `INTEGER PRIMARY KEY` column without an id the rowid
  `max(rowid) + 1`, or 1 for an empty table. This is `NextCallId`. Because the loader never
  deletes from `callLogs`, the ids it hands out in one load are consecutive.
- Whitespace is restricted to ASCII, and the two primitives skip different sets. `strip()`
  removes what `str.isspace` accepts: space, `\t \n \v \f \r` and the information separators
  `\x1c`–`\x1f`. `int()` skips only space and `\t \n \v \f \r`, so a field holding a
  separator next to its digits is not an integer and its row is skipped. `Text.Trim` takes the
  set as a parameter; `Strip` and `IntTrim` are its two instances.
- Two behaviours of the code worth noting:
  - The analytics query groups every `userId` found in `callLogs`, whether or not a user with
    that id exists. There is no join with `users`.
  - An empty users file makes `next(reader)` raise. The handler catches it and nothing
    changes, which is the same effect as a wrong header.

## Model

| member | source | states |
|---|---|---|
| `Storage.Store.constructor` | src/main/main.py:14-30 | both tables start empty (and well formed) |
| `Storage.Store.LoadAndCleanUsers` | src/main/main.py:50-78 | empty file or wrong header: users table unchanged, `None` returned; otherwise the table is exactly the kept rows numbered from 1, the returned count is their number, callLogs is untouched, and the well-formedness invariant holds |
| `Storage.Store.LoadAndCleanCallLogs` | src/main/main.py:80-101 | callLogs becomes the old table followed by the kept rows with SQLite's next rowids; users untouched; invariant kept |
| `Storage.Store.WriteUserAnalytics` | src/main/main.py:106-122 | emit loop: the lines are the header followed by one line per grouped result row |
| `Storage.Store.WriteOrderedCalls` | src/main/main.py:127-140 | emit loop: the lines are the header followed by one line per call row in key order |
| `Storage.Run` | src/main/main.py:11-43 | running the four operations in the entry point's order gives the reports of the call logs that were loaded into a fresh store |
| `Text.TrimLeftSpec` | src/main/main.py:63 | leading-whitespace removal (by `strip()` or `int()`) drops only whitespace of its set and stops at the first other character |
| `Text.TrimRightSpec` | src/main/main.py:63 | trailing-whitespace removal drops only whitespace of its set and stops at the last other character |
| `Text.TrimSpec` | src/main/main.py:63 | `strip()` never lengthens a string, and its result neither starts nor ends with whitespace |
| `Text.TrimCharacterized` | src/main/main.py:63 | `strip()` returns exactly the part between the leading and trailing whitespace runs |
| `Text.TrimIdempotent` | src/main/main.py:63 | stripping twice is stripping once |
| `Text.StripEmptyIff` | src/main/main.py:68 | a field strips to empty exactly when it is all whitespace (both directions) |
| `Text.ParseFormatRoundTrip` | src/main/main.py:91-93 | `int(str(n)) == n` for every integer n |
| `Text.ParseIntIgnoresSpace` | src/main/main.py:91-93 | `int()` gives the same result once the space, `\t \n \v \f \r` it skips are removed from both ends |
| `Text.ParseIntRejectsBlank` | src/main/main.py:91-93 | a blank field, or one holding only `str.isspace` whitespace, is never an integer (the row is skipped) |
| `Text.ParseIntRejectsSeparator` | src/main/main.py:91-93 | a field starting with `\x1c`–`\x1f` is never an integer, although `strip()` would remove that character |
| `Ingest.CleanUserRowSpec` | src/main/main.py:63-74 | a user row is kept iff it has exactly 2 fields and both are non-empty after stripping; the kept names are the stripped fields and are clean |
| `Ingest.KeptUsersAppend` | src/main/main.py:62-74 | the kept rows of two consecutive chunks are the kept rows of each, concatenated: a bad row never disturbs its neighbours |
| `Ingest.KeptUsersSnoc` | src/main/main.py:62-74 | one more input row adds its names, or nothing when skipped, so skipped rows use up no id |
| `Ingest.KeptUsersClean` | src/main/main.py:63-72 | every stored name is non-empty and stripped; at most one user per input row |
| `Ingest.KeptUsersAt` | src/main/main.py:60-72 | input order: a kept row i sits right after the kept rows before it |
| `Ingest.NumberUsersSnoc` | src/main/main.py:69-71 | inserting with the counter `userId` extends the numbering 1..n by n+1 |
| `Ingest.UserLoadStep` | src/main/main.py:62-72 | one loop iteration turns the table built from rows 1..i-1 into the one built from rows 1..i |
| `Ingest.UsersAfterLoadWellFormed` | src/main/main.py:59-72 | after an accepted load, ids are 1..n in order, names clean, n smaller than the row count |
| `Ingest.UsersLoadIdempotent` | src/main/main.py:59 | the table is cleared first, so loading the same file twice gives the same table |
| `Ingest.CleanCallRowSpec` | src/main/main.py:86-96 | a call row is kept iff it has 5 fields, fields 1, 2 and 4 parse as integers, field 0 as it stands is non-empty and field 3 stripped is non-empty; the inserted values are those |
| `Ingest.SeparatorFieldSkipsCallRow` | src/main/main.py:86-98 | a row whose startTime, endTime or userId field starts with `\x1c`–`\x1f` is skipped |
| `Ingest.KeptCallsAppend` | src/main/main.py:85-98 | kept call rows of consecutive chunks concatenate: a bad row never stops later rows |
| `Ingest.KeptCallsSnoc` | src/main/main.py:85-98 | one more input row adds its values, or nothing when skipped |
| `Ingest.KeptCallsClean` | src/main/main.py:90-94 | every inserted row has a non-empty phone number and a clean direction |
| `Ingest.NextCallIdFresh` | src/main/main.py:22-30 | the next rowid is larger than every id in the table |
| `Ingest.NextCallIdAfterInsert` | src/main/main.py:95-96 | after one insert at the next rowid, the next rowid is one higher |
| `Ingest.NextCallIdDense` | src/main/main.py:95-96 | after n inserts in one load, the next rowid has moved by n |
| `Ingest.NumberCallsSnoc` | src/main/main.py:95-96 | inserting at SQLite's next rowid extends the consecutive numbering of the load |
| `Ingest.AppendNumbered` | src/main/main.py:95-96 | appending a numbered run keeps the old rows and carries the new values in order |
| `Ingest.CallLoadStep` | src/main/main.py:85-96 | one loop iteration turns the table built from rows 1..i-1 into the one built from rows 1..i |
| `Ingest.CallLogsLoadAppends` | src/main/main.py:84-96 | a load only appends: old rows first and unchanged, new rows are the kept input rows in order, with consecutive ids above every old id; header dropped, userId unchecked |
| `Ingest.CallLogsAfterLoadWellFormed` | src/main/main.py:85-96 | ids stay positive and strictly increasing (so distinct); phone numbers non-empty, directions clean |
| `Ingest.CallLogsLoadTwiceDuplicates` | src/main/main.py:84-96 | loading the same file twice stores every kept row twice |
| `Reports.FindInAscending` | src/main/main.py:108-113 | in an ascending result, looking up a user finds its one row |
| `Reports.TallyAbove` | src/main/main.py:108-113 | counting a call adds no user id below a bound that all ids exceed |
| `Reports.FindMissing` | src/main/main.py:108-113 | a user absent from the result rows has no group |
| `Reports.TallyFind` | src/main/main.py:108-113 | counting a call changes only its user's group (count +1, duration added) and keeps one row per user |
| `Reports.NoCallsNoDuration` | src/main/main.py:110 | a user with no calls has zero total duration |
| `Reports.CallsOfPositive` | src/main/main.py:111-113 | a user's count is positive iff some call row has that userId |
| `Reports.UserAnalyticsFind` | src/main/main.py:108-113 | user u has a result row iff u has calls, and the row is (u, summed duration, count) |
| `Reports.UserAnalyticsCorrect` | src/main/main.py:108-119 | exactly one row per distinct userId with calls, none for others; each row's count and total duration are those of its user's calls |
| `Reports.UserAnalyticsExample` | src/main/main.py:103-105 | durations 100 and 110 for user 1 and 50 for user 2 give the rows `1,105.0,2` and `2,50.0,1` |
| `Reports.InsertByKey` | src/main/main.py:129-132 | insertion adds exactly the one row |
| `Reports.InsertByKeyAbove` | src/main/main.py:129-132 | insertion keeps a lower bound on the keys |
| `Reports.InsertByKeySorted` | src/main/main.py:129-132 | insertion into a sorted sequence stays sorted by (userId, startTime) |
| `Reports.OrderedCalls` | src/main/main.py:129-132 | the export is a permutation of the table (every row, all fields, as often as stored), non-decreasing by (userId, startTime) |
| `Reports.OrderedCallsExample` | src/main/main.py:125-132 | (userId, startTime) pairs (2,500), (1,300), (1,100) come out as (1,100), (1,300), (2,500) |
| `Reports.UserAnalyticsCsvLines` | src/main/main.py:115-119 | the analytics file is its fixed header, which is not a data line, followed only by data lines that read back as the result rows |
| `Reports.OrderedCallsCsvLines` | src/main/main.py:133-137 | the ordered file is its fixed header followed by one data line per call row, each reading back as all six fields of the sorted row |
| `Reports.ExportedCallReloads` | src/main/main.py:86-96 | an exported row's printed fields, without `callId`, pass the call-log loader's checks and load back the same values |

## Left out

- File opening, `csv.reader`/`csv.writer` quoting, encodings and console messages are not
  modelled: input is pre-split rows and output is the lines handed to `writerow`.
- Exceptions that abort a load partway through, and `commit`, are not modelled. These are the
  outer `except` blocks and the transaction semantics that SQLite controls.
- Values outside SQLite's 64-bit INTEGER range are not modelled. Inserting one raises
  `OverflowError`, which is not a `ValueError`, so the whole load would abort. The model stores
  unbounded integers.
- `ParseInt`: does not model CPython's limit of 4300 digits on `int()` of a string. A longer
  field makes `int()` itself raise `ValueError`, so that row is skipped rather than the load
  aborted; the model parses it.
- SQLite's fallback to a random rowid once `max(rowid)` reaches 2^63-1 is not modelled.
- `AVG` as a floating-point number is not modelled. The model keeps the exact pair (total,
  count), and `AvgDuration` gives its exact rational value. How `str(float)` prints the
  average is not modelled, so `FieldText` is not defined on `Avg` fields.
- Row order of `GROUP BY` is not fixed by SQL. The model emits ascending `userId`.
- Row order among calls with equal (`userId`, `startTime`) is not fixed by `ORDER BY`. The
  model keeps table order; the proved properties (sorted, permutation) hold for any order.
- `int()` accepts underscores between digits, non-ASCII digits and non-ASCII whitespace. The
  model does not: `ParseInt` rejects such fields, where Python would accept them. On ASCII
  input without underscores, `ParseInt` accepts exactly what `int()` accepts, up to the digit
  limit above.
- `strip()` also removes non-ASCII whitespace. The model does not.
- `select_from_users_and_call_logs`, `return_cursor`, and closing the cursor and connection
  are left out: they are debug output and plumbing.
- The foreign key from `callLogs.userId` to `users` is not modelled. SQLite does not enforce it
  by default, so no check happens in the program either.

# Breaklist schedule model

A Dafny model of the core of a small web application for break schedules. The
application imports a shift report (a spreadsheet with one row per staff
member and their shift start and end), places each shift on a 25-hour
timeline that starts at 06:00, and lets the user edit the resulting schedule:
rename a row, retype its times, add or delete rows, change the row order, and
write short notes into the time slots of each row.

The model covers three parts of the source:

- **The timeline arithmetic** (`TimeWindow`, `Models.ToHHmm`).
  - A minute of the day earlier than the window's start is moved to the next day.
  - A shift end that is not after its start is moved a day later and then clamped to the window's end.
  - A minute count is shown as `HH:MM`.
  - The two identical copies of `NormalizeToWindow` in the source are modelled once. The report parser and the row editor both use that one definition, and the end rule too.
- **The shift report parser** (`ShiftReportParser`).
  - It works over an abstract grid of typed cells (`Spreadsheet`), not bytes.
  - It picks the worksheet, scans for the header row, and resolves the name, start and end columns.
  - It reads each data row, sorts the result stably by start time and then name, and numbers it.
  - `Parse`, `FindHeaderRow`, `FindCol` and the data-row loop are methods with loops. Each is proved equal to a specification function, and the properties of the result are lemmas about those functions.
- **The controller actions** (`BreaklistController`), without loading and saving.
  - The persisted state is the class `Models.BreaklistState`, which holds a sequence of `Row` values and a map of cell notes.
  - Each action is a method that changes the rows or the cells of that object, and its contract states the new state in full.
  - The actions are: the import merge, `ClearAll`, `SortByStartTime`, the re-sort in `ViewBreaklist`, `UpdateCell`, `UpdateRow`, `AddRow`, `DeleteRow` and `Reorder`.

Supporting modules:

- `DotNet` models the library behaviour the source relies on:
  - C#'s truncating `%` (Dafny's is Euclidean);
  - `string.Trim` with its white-space set, and ordinal ignore-case comparison;
  - `StartsWith`, `Split` with `RemoveEmptyEntries | TrimEntries`, and integer formatting.
- `StableSort` models LINQ's `OrderBy`/`ThenBy`: a stable insertion sort under a total preorder. It is proved sorted, a permutation, and order-preserving among equal keys.
- `Platform.Runtime` holds the culture-dependent and floating-point services as given functions:
  - `TimeSpan.TryParse` and `DateTime.TryParse`;
  - `DateTime.FromOADate`;
  - `object.ToString()`;
  - the culture's string order.
- New row ids (`Guid.NewGuid()`) come from a fresh-id parameter.

## Model

| member | source | states |
|---|---|---|
| TimeWindow.NormalizeToWindow | Controllers/BreaklistController.cs:226-230 | a minute before the window start moves exactly one day later and any other minute is kept; so any input less than a day before the start lands at or after the start, and any input less than a day after the start lands within the window's first 24 hours (same body as Services/ShiftReportParser.cs:113-117) |
| TimeWindow.NormalizeToWindowIdempotent | Services/ShiftReportParser.cs:113-117 | normalising an already normalised value changes nothing |
| TimeWindow.NormalizeToWindowRecovers | Controllers/BreaklistController.cs:226-230 | every absolute minute in the window's first day is what normalising its own clock minute gives back |
| TimeWindow.ResolveEndAfterStart | Services/ShiftReportParser.cs:75 | an end not after the start moves exactly one day later, and an end after the start is kept; so an end less than a day before the start ends up after it |
| TimeWindow.ClampToWindow | Services/ShiftReportParser.cs:77 | the result never exceeds the window end or the input, and is one of the two |
| TimeWindow.NextClockTime | Services/ShiftReportParser.cs:74-75 | the first minute after the start with the given clock time: after the start, at most a day later, and congruent to the clock time mod 1440 |
| TimeWindow.WindowedEnd | Services/ShiftReportParser.cs:74-77 | the stored end never passes the window end; it is the window end or shows the input's clock time; it lies after a start inside the window when the end is not a day or more before the window start; for a start at or after the window start it is at most one day after the start; for a start in the window's first day and an end less than a day from the window start it is exactly `NextClockTime` of the end, clamped to the window end, so it is clamped only when that minute passes the window end |
| TimeWindow.WindowedEndLater | Services/ShiftReportParser.cs:71-77 | an end given as the clock time d minutes (0 < d < 1440) after a start in the window's first day is stored exactly d minutes after that start, clamped to the window end |
| DotNet.CsRem | Services/ShiftReportParser.cs:127 | C#'s `%` by a positive divisor: strictly inside (-b, b), with the sign of the dividend |
| DotNet.CsRemWrapsToEuclidean | Models/BreaklistState.cs:16-17 | a non-negative C# remainder equals the Euclidean one, and a negative one plus the divisor equals it, so adding the divisor wraps it into [0, b) |
| DotNet.Trim | Controllers/BreaklistController.cs:111 | the result is empty exactly when the input is all white space; otherwise it neither starts nor ends with white space; it is never longer than the input |
| DotNet.TrimRemovesOnlyOuterWhiteSpace | Controllers/BreaklistController.cs:111 | the result is the input character for character from position `LeadingWhiteSpace` on, and every input character after it is white space: only outer white space is cut |
| DotNet.LeadingWhiteSpace | Controllers/BreaklistController.cs:111 | the number of white-space characters the text starts with: all of them are white space and the next character is not |
| DotNet.TrailingWhiteSpace | Controllers/BreaklistController.cs:111 | the number of white-space characters the text ends with: all of them are white space and the character before them is not |
| DotNet.TrimIdempotent | Controllers/BreaklistController.cs:130 | trimming twice is trimming once |
| DotNet.TrimTrimmed | Controllers/BreaklistController.cs:130 | a name without outer white space is left exactly as it is |
| DotNet.TrimKeepsCharacters | Controllers/BreaklistController.cs:187 | every character of the trimmed text occurs in the input, so trimming a comma-free piece leaves it comma-free |
| DotNet.IntToStringInjective | Controllers/BreaklistController.cs:110 | different slot numbers are written as different texts |
| DotNet.SplitOn | Controllers/BreaklistController.cs:186-187 | `Split(',')` yields at least one piece and no piece holds the separator |
| DotNet.SplitJoin | Controllers/BreaklistController.cs:186-187 | joining the pieces with the separator gives back the input |
| DotNet.SplitTrimmed | Controllers/BreaklistController.cs:186-188 | every entry of `Split(',', RemoveEmptyEntries \| TrimEntries)` is non-empty, has no comma and no outer white space; a text is an entry exactly when it is the non-empty trimmed form of some piece of `Split(',')` |
| DotNet.TrimmedNonEmpty | Controllers/BreaklistController.cs:187 | no more entries than pieces, each non-empty, without the separator and without outer white space |
| DotNet.TrimmedNonEmptyMembers | Controllers/BreaklistController.cs:187 | an entry is present exactly when it is the non-empty trimmed text of some piece |
| DotNet.TrimmedNonEmptyAppend | Controllers/BreaklistController.cs:187 | the entries of two runs of pieces are those of the first run followed by those of the second, so the pieces' order is kept |
| DotNet.TrimmedNonEmptySingle | Controllers/BreaklistController.cs:187 | one piece yields nothing when blank, else exactly its trimmed text |
| StableSort.SortBy | Controllers/BreaklistController.cs:83 | `OrderBy` returns a permutation of its input |
| StableSort.SortBySorted | Controllers/BreaklistController.cs:83 | under a total preorder the result is sorted |
| StableSort.SortByStable | Controllers/BreaklistController.cs:100 | rows with equal keys keep their relative order |
| StableSort.InsertSorted | Controllers/BreaklistController.cs:83 | inserting into a sorted sequence keeps it sorted |
| StableSort.LevelInsert | Controllers/BreaklistController.cs:100 | among the elements of one key, inserting puts the new element ahead of those already sorted, so earlier input stays earlier |
| Models.BreaklistState.constructor | Models/BreaklistState.cs:5-12 | a new state starts the window at 360, lasts 1500 minutes, uses 20-minute slots, has no source name, no rows and no cells |
| Models.ToHHmm | Models/BreaklistState.cs:14-20 | the text is five characters `HH:MM`, hours 00-23 and minutes 00-59, and denotes the input reduced into [0, 1440) |
| Spreadsheet.MinuteOfDay | Services/ShiftReportParser.cs:124 | `Hour * 60 + Minute` is a minute in [0, 1440) from which the hour and minute are read back by division and remainder by 60 |
| Models.ToHHmmPeriodic | Models/BreaklistState.cs:16-17 | shifting the input by any whole number of days shows the same text |
| Models.ClockTextInjective | Models/BreaklistState.cs:18-19 | two `HH:MM` texts for the same minute are the same text |
| Models.ByStartThenNameIsTotalPreorder | Controllers/BreaklistController.cs:83 | ordering by start time and then by a total preorder on names is a total preorder |
| Models.BySortOrderIsTotalPreorder | Controllers/BreaklistController.cs:174 | ordering by `SortOrder` is a total preorder |
| Models.AssignSortOrders | Controllers/BreaklistController.cs:84-87 | the numbering loop sets each row's `SortOrder` to its position and changes nothing else |
| Models.SortByStartThenNameAndNumber | Controllers/BreaklistController.cs:83-88 | after sorting by start time and name and numbering, the rows are in (start, name) order and are the same rows as before up to `SortOrder` |
| Models.SortBySortOrderAndNumber | Controllers/BreaklistController.cs:174-175 | after sorting by `SortOrder` and numbering, the previous orders are non-decreasing and the rows are the same up to `SortOrder` |
| ShiftReportParser.ReportSheetIndex | Services/ShiftReportParser.cs:17 | the first worksheet whose name equals "Report" ignoring case, or none if no sheet is so named |
| ShiftReportParser.SelectWorksheet | Services/ShiftReportParser.cs:16-18 | no sheet exactly when the workbook is empty; otherwise the "Report" sheet when there is one, else the first sheet |
| ShiftReportParser.CellString | Services/ShiftReportParser.cs:31 | an empty cell has no text and every other cell has some |
| ShiftReportParser.TrimmedCellText | Services/ShiftReportParser.cs:58 | the text read from a cell has no outer white space |
| ShiftReportParser.ParseTimeToMinutes | Services/ShiftReportParser.cs:119-145 | an empty cell or blank text gives none; a date-time gives hour * 60 + minute; a serial number gives the minute of day of its OLE date; a duration gives `CsRem(minutes, 1440)`, congruent mod 1440 and non-negative for a non-negative duration; a non-blank text is tried as an invariant-culture duration (then `CsRem`), else as a current-culture date-time, else as an invariant-culture date-time, and gives none when all three fail; every result lies in (-1440, 1440) |
| ShiftReportParser.HeaderRowOf | Services/ShiftReportParser.cs:26-38 | the header is the first row in 1..min(last row, 40) whose trimmed first cell equals "Employee Full Name" ignoring case; none means no row in that range is one |
| ShiftReportParser.FindHeaderRow | Services/ShiftReportParser.cs:26-38 | the scanning loop returns -1 exactly when there is no header, else the header row |
| ShiftReportParser.IsHeaderAt | Services/ShiftReportParser.cs:31-33 | the trimmed first cell of the row is not empty and equals "Employee Full Name" ignoring case |
| ShiftReportParser.MatchesAny | Services/ShiftReportParser.cs:102 | the header text equals one of the trimmed candidate names ignoring case |
| ShiftReportParser.MatchesAnyIff | Services/ShiftReportParser.cs:102 | matching is membership in the set of trimmed candidates under ordinal ignore-case equality, in both directions |
| ShiftReportParser.ColumnOf | Services/ShiftReportParser.cs:99-111 | the smallest column in 1..last column (50 without a used range) whose trimmed header text matches a candidate ignoring case; none means no column does |
| ShiftReportParser.FindCol | Services/ShiftReportParser.cs:99-111 | the scanning loop returns exactly that column |
| ShiftReportParser.ColumnsOf | Services/ShiftReportParser.cs:46-48 | each of the name, start and end columns is the found column for its candidate headers, or 1, 10 and 14 respectively when none is found |
| ShiftReportParser.ReadShift | Services/ShiftReportParser.cs:58-77 | a row is kept exactly when its trimmed name is non-blank and its start cell yields a minute; the kept name is that trimmed text; the start shows the parsed minute's clock time, lies in (0, 1800), and at or after 360 for a non-negative minute; the end is at most 1860 and is 1860 or shows the end cell's clock time; without a readable end it is the start plus 480, clamped to 1860; the end lies after the start unless the end cell is a duration of 18 hours or more below zero, and at most a day after it unless the start cell is such a duration; with a readable end and neither cell such a duration, the end is exactly `NextClockTime` of the end cell's minute after the stored start, clamped to 1860 |
| ShiftReportParser.ShiftOf | Services/ShiftReportParser.cs:73-77 | the start keeps its clock time and lands in (0, 1800), at or after 360 for a clock-of-day minute; the end is at most 1860 and is 1860 or shows the given end's clock time; it lies after the start unless the end is 18 hours or more below zero, and at most a day after it unless the start is; for a start and an end less than a day from 06:00 the end is exactly `NextClockTime` of the end after the stored start, clamped to 1860 |
| ShiftReportParser.DefaultEndOfShift | Services/ShiftReportParser.cs:70-77 | the default end `(start + 480) % 1440` (C# `%`) of any start minute in (-1440, 1440) is stored as the normalised start plus 480, clamped to 1860 |
| ShiftReportParser.DefaultEndOfNegativeStart | Services/ShiftReportParser.cs:70-77 | for a negative start minute the default end is `start + 480` itself and is stored as the normalised start plus 480, clamped |
| ShiftReportParser.DefaultEndOfClockStart | Services/ShiftReportParser.cs:70-77 | for a clock-of-day start minute the default end is stored as the normalised start plus 480, clamped |
| ShiftReportParser.KeptRows | Services/ShiftReportParser.cs:56-67 | the sheet rows of the range that read as shifts, inside the range, each once and in increasing order |
| ShiftReportParser.KeptRowsComplete | Services/ShiftReportParser.cs:56-67 | every row of the range that reads as a shift is among the kept rows: no valid row is skipped |
| ShiftReportParser.CollectRows | Services/ShiftReportParser.cs:56-85 | one row per kept sheet row, in sheet order: the k-th collected row is the shift of the k-th kept sheet row under the k-th fresh id with `SortOrder` 0 |
| ShiftReportParser.CollectedRowsWithinWindow | Services/ShiftReportParser.cs:53-54 | every collected row has a trimmed, non-blank name, a start in (0, 1800) and an end at most 1860 |
| ShiftReportParser.CollectedRowsEndAfterStart | Services/ShiftReportParser.cs:73-77 | every collected row ends after it starts, when no end cell is a far-negative duration |
| ShiftReportParser.LastRow | Services/ShiftReportParser.cs:51 | the data rows run to the used range's last row, or to the header row when the sheet has no used range |
| ShiftReportParser.RowsBelowHeader | Services/ShiftReportParser.cs:50-85 | the rows read below the header carry the fresh ids in order and `SortOrder` 0 |
| ShiftReportParser.Collected | Services/ShiftReportParser.cs:50-85 | the rows read from the selected sheet carry the fresh ids in order and `SortOrder` 0; there are none without a sheet or a header |
| ShiftReportParser.CollectedWithinWindow | Services/ShiftReportParser.cs:53-54 | every collected row has a trimmed, non-blank name, a start in (0, 1800) and an end at most 1860 |
| ShiftReportParser.CollectedBelowHeader | Services/ShiftReportParser.cs:16-48 | rows are collected only when a sheet is selected and has a header, and they are then exactly the rows read below that header |
| ShiftReportParser.ParseReport | Services/ShiftReportParser.cs:9-97 | an error is returned exactly when the row list is empty; the no-worksheet error exactly when the workbook has no sheet; the no-header error exactly when a sheet is selected but has no header row; the no-rows error exactly when a header is found but no row below it is kept |
| ShiftReportParser.ParseReportSucceeds | Services/ShiftReportParser.cs:87-94 | no error exactly when some row was collected, and then the result is the collected rows sorted by (start, name) and numbered |
| ShiftReportParser.RowsBelowHeaderAreCollected | Services/ShiftReportParser.cs:50-85 | the rows below a header are the shift reader's rows of the range from the row after the header to the last row |
| ShiftReportParser.ReportOfRowsBelowHeader | Services/ShiftReportParser.cs:87-94 | with a selected sheet and header, when rows are read below the header the result is those rows sorted by (start, name) and numbered |
| ShiftReportParser.CollectDataRows | Services/ShiftReportParser.cs:56-85 | the data-row loop builds exactly the rows below the header |
| ShiftReportParser.Parse | Services/ShiftReportParser.cs:9-97 | the imperative parse returns exactly `ParseReport`'s rows and error; the error is set exactly when no rows are returned; row i has `SortOrder` i |
| ShiftReportParser.ReportedRowIsCollected | Services/ShiftReportParser.cs:93-94 | every returned row is a collected row with a new `SortOrder` |
| ShiftReportParser.SortedPosition | Services/ShiftReportParser.cs:93-94 | every collected row sits at some position of the sorted and numbered result, with that position as `SortOrder` |
| ShiftReportParser.CollectedRowIsSheetRow | Services/ShiftReportParser.cs:56-85 | the k-th row collected below the header is the shift read from some sheet row below the header, under the k-th fresh id |
| ShiftReportParser.SheetRowIsReported | Services/ShiftReportParser.cs:56-94 | every sheet row below the header that has a non-blank name and a readable start appears among the returned rows with its name, start and end |
| ShiftReportParser.RowBelowHeaderIsNumbered | Services/ShiftReportParser.cs:56-94 | a sheet row below the header that reads as a shift is carried by some row of the sorted, numbered result |
| ShiftReportParser.KeptRowIsNumbered | Services/ShiftReportParser.cs:56-94 | for any row reader, a row of the range it reads as a shift is carried by some row of the sorted, numbered collection |
| ShiftReportParser.ReportedRowIsSheetRow | Services/ShiftReportParser.cs:56-94 | every returned row carries the name, start and end read from some sheet row below the header of the selected sheet |
| ShiftReportParser.ParseReportSortedPermutation | Services/ShiftReportParser.cs:93-94 | the result is sorted by (start, name), numbered 0..n-1, and is a permutation of the collected rows up to `SortOrder` |
| ShiftReportParser.ParseReportWithinWindow | Services/ShiftReportParser.cs:53-54 | every returned row has a trimmed, non-blank name, starts in (0, 1800) and ends at or before 1860 |
| ShiftReportParser.RowsBelowHeaderEndAfterStart | Services/ShiftReportParser.cs:73-77 | the rows below the header end after they start, when no end cell is a far-negative duration |
| ShiftReportParser.ParseReportEndsAfterStarts | Services/ShiftReportParser.cs:73-77 | every returned row ends after it starts, when no end cell of the sheet is a far-negative duration |
| ShiftReportParser.FarNegativeEndPrecedesStart | Services/ShiftReportParser.cs:73-77 | an end cell of -23:59 reads as -1439 minutes, and with start 05:59 the row becomes start 1799, end 1441: it ends before it starts |
| ShiftReportParser.FarNegativeStartEndsLater | Services/ShiftReportParser.cs:73-77 | a start cell of -21:40 reads as -1300 minutes and lands at 140; an end of 03:20 then lands at 1640, more than a day after the start |
| BreaklistController.TryParseHHmm | Controllers/BreaklistController.cs:213-224 | a value exactly when the text is not blank and the culture parses it; that value is `CsRem(parsed minutes, 1440)`: in (-1440, 1440), congruent mod 1440 to the parsed minutes, and non-negative for a non-negative duration |
| BreaklistController.ToHHmmParsesBack | Controllers/BreaklistController.cs:213-224 | what `ToHHmm` shows is read back as the same minute of the day, for a culture that reads `HH:MM` texts |
| BreaklistController.ClockTextRoundTrip | Controllers/BreaklistController.cs:132-133 | for an absolute minute in the window's first day, parsing its `HH:MM` text and normalising returns that minute |
| BreaklistController.FirstWithId | Controllers/BreaklistController.cs:127 | the first row with that id, or none if no row has it |
| BreaklistController.MaxSortOrder | Controllers/BreaklistController.cs:57 | the largest `SortOrder` of a non-empty list, attained by some row |
| BreaklistController.NextSortOrder | Controllers/BreaklistController.cs:57 | 0 for no rows, else one more than the largest `SortOrder`: above every existing order |
| BreaklistController.NumberedFrom | Controllers/BreaklistController.cs:58-62 | row i gets `SortOrder` first + i and is otherwise unchanged |
| BreaklistController.NumberedAfterShape | Controllers/BreaklistController.cs:202-206 | the front rows are kept in place, and each following row k takes `SortOrder` k and is otherwise unchanged |
| BreaklistController.NumberedAfterSnoc | Controllers/BreaklistController.cs:202-206 | appending one more row gives it the current count and leaves the others alone |
| BreaklistController.Merged | Controllers/BreaklistController.cs:56-62 | the merge has one row per existing and parsed row; it keeps every existing row in place, then appends parsed row k in parser order with `SortOrder` `NextSortOrder(rows) + k`, otherwise unchanged |
| BreaklistController.MergedAfterExisting | Controllers/BreaklistController.cs:56-62 | the appended rows get orders above all existing ones, increasing in parser order, and counting up by one from the largest existing order plus one, or from 0 for an empty schedule |
| BreaklistController.WithoutId | Controllers/BreaklistController.cs:168 | `RemoveAll` keeps exactly the rows with a different id |
| BreaklistController.WithoutIdAppend | Controllers/BreaklistController.cs:168 | filtering two runs of rows gives the kept rows of the first run followed by those of the second, so the kept rows stay in order |
| BreaklistController.WithoutIdCounts | Controllers/BreaklistController.cs:168 | a row with another id is kept exactly as many times as it occurs, and a row with the id not at all |
| BreaklistController.EditedRow | Controllers/BreaklistController.cs:130-140 | the id and order are kept; the name becomes the trimmed input; an unreadable start or end keeps that field; a read start lands in the window's first day at its clock time; a read end never passes the window end and is the window end or at the end's clock time; it lies after the start in the window, and at most a day after a start at or after the day start; for a start in the window's first day and a read end less than a day before the day start, the end is exactly `NextClockTime` of the read end after the start, clamped to the window end |
| BreaklistController.ResubmittedRowUnchanged | Controllers/BreaklistController.cs:130-140 | submitting a row's own name and displayed `HH:MM` times leaves the row unchanged |
| BreaklistController.CellKey | Controllers/BreaklistController.cs:110 | the key of a cell starts with the row id and a colon, followed by at least one character |
| BreaklistController.CellKeyInjective | Controllers/BreaklistController.cs:110 | for ids without a colon, a cell key determines its row id and slot |
| BreaklistController.CellKeyPrefix | Controllers/BreaklistController.cs:170-171 | a cell key starts with `rowId + ":"` exactly when it belongs to that row |
| BreaklistController.CellEntry | Controllers/BreaklistController.cs:111-116 | no entry exactly when the value is blank; otherwise a prefix of the trimmed value of length 1..6: the whole trimmed value when it is that short, its first six characters when it is longer |
| BreaklistController.WithCell | Controllers/BreaklistController.cs:113-116 | the key is present afterwards exactly when the value is not blank, holding `CellEntry` of the value; every other key and value is as it was |
| BreaklistController.WithCellPreserves | Controllers/BreaklistController.cs:113-116 | writing a cell keeps every entry non-blank and at most six characters |
| BreaklistController.WithoutPrefix | Controllers/BreaklistController.cs:170-172 | exactly the keys not starting with the prefix remain, with their values |
| BreaklistController.HasDuplicateIds | Controllers/BreaklistController.cs:190 | two rows share an id, the case in which `ToDictionary` throws |
| BreaklistController.DistinctIdsIffLookupFinds | Controllers/BreaklistController.cs:190-195 | row ids are distinct exactly when looking up each row's id finds that very row, which is what the dictionary lookup gives |
| BreaklistController.LastIndexOf | Controllers/BreaklistController.cs:193-199 | the last position of an id in the list, or -1 exactly when it is absent |
| BreaklistController.ListedIds | Controllers/BreaklistController.cs:193-199 | every listed entry comes from the list and names an existing row, and there are no more than the list has |
| BreaklistController.Front | Controllers/BreaklistController.cs:193-199 | one row per listed entry, carrying that entry's id and, as `SortOrder`, the entry's last position in the list |
| BreaklistController.Unlisted | Controllers/BreaklistController.cs:202 | exactly the rows whose id is not in the list |
| BreaklistController.Reordered | Controllers/BreaklistController.cs:190-208 | first the `Front` rows in place (one per listed entry, with its id and last list position as `SortOrder`); then each `Unlisted` row in its old order, with its position as `SortOrder` |
| BreaklistController.Restamped | Controllers/BreaklistController.cs:197 | every copy of the row with that id takes the new order, and the other rows are unchanged |
| BreaklistController.ListedRows | Controllers/BreaklistController.cs:193-200 | the first loop builds exactly `Front`: a row listed twice is the same object and ends with the later position |
| BreaklistController.AppendUnlisted | Controllers/BreaklistController.cs:202-206 | the second loop appends the unlisted rows in order, numbered on from the current count |
| BreaklistController.AppendUnlistedStep | Controllers/BreaklistController.cs:202-206 | one pass of the second loop keeps the result equal to the front followed by the unlisted rows seen so far, numbered on |
| BreaklistController.ReorderRows | Controllers/BreaklistController.cs:190-208 | for distinct row ids the two loops build exactly the reordered rows |
| BreaklistController.ListedIdsAll | Controllers/BreaklistController.cs:193-199 | when every entry names a row, every entry is listed |
| BreaklistController.ListedIdsComplete | Controllers/BreaklistController.cs:193-199 | an entry that names a row is listed |
| BreaklistController.ReorderedPositions | Controllers/BreaklistController.cs:193-206 | with distinct entries that all name rows, position k holds the row with entry k, and every row's `SortOrder` is its position |
| BreaklistController.ReorderedKeepsEveryRow | Controllers/BreaklistController.cs:190-208 | for distinct row ids every row is still present up to `SortOrder` |
| BreaklistController.ReorderedInventsNoRow | Controllers/BreaklistController.cs:190-208 | every row of the result is an original row up to `SortOrder` |
| BreaklistController.ListedAndUnlistedCount | Controllers/BreaklistController.cs:193-206 | with distinct row ids and distinct entries, the listed and the unlisted rows add up to all rows |
| BreaklistController.ReorderedKeepsCount | Controllers/BreaklistController.cs:190-208 | with distinct row ids and distinct entries, the reordered list has as many rows as before |
| BreaklistController.DeleteRowRenumbers | Controllers/BreaklistController.cs:168-175 | after deletion no row has the id, the rows are numbered 0..n-1, and they are the remaining rows up to `SortOrder` |
| BreaklistController.Upload | Controllers/BreaklistController.cs:28-66 | no file: the choose-a-file error and no change; a parse error: that error and no change; otherwise the parsed rows are merged after the existing ones and nothing else changes |
| BreaklistController.AppendParsed | Controllers/BreaklistController.cs:56-62 | the merge loop gives exactly `Merged` and touches neither the cells nor the settings |
| BreaklistController.ClearAll | Controllers/BreaklistController.cs:70-75 | a fresh state with the defaults and a redirect to the upload page |
| BreaklistController.SortByStartTime | Controllers/BreaklistController.cs:79-91 | the rows become the (start, name) stable sort of the old rows, numbered 0..n-1; cells and settings are unchanged |
| BreaklistController.ViewBreaklist | Controllers/BreaklistController.cs:94-103 | no rows: a redirect to the upload page and no change; otherwise the rows become the stable sort by `SortOrder` |
| BreaklistController.UpdateCell | Controllers/BreaklistController.cs:107-120 | the cells become `WithCell` for key `rowId:slot`, so well-formed cells (non-blank, at most six characters) stay well formed; rows and settings are unchanged |
| BreaklistController.UpdateRow | Controllers/BreaklistController.cs:124-144 | an unknown id gives NotFound and no change; otherwise only the first row with the id is replaced by `EditedRow` |
| BreaklistController.AddRow | Controllers/BreaklistController.cs:148-161 | one row is appended with a fresh id, the next order (0 for an empty list), the name "New Staff", start at the day start and end 480 minutes later |
| BreaklistController.DeleteRow | Controllers/BreaklistController.cs:165-179 | the rows become those without the id, stably sorted by `SortOrder` and renumbered; the cells lose exactly the keys starting with `rowId + ":"` and stay well formed if they were |
| BreaklistController.Reorder | Controllers/BreaklistController.cs:183-211 | rows with a repeated id make the lookup table throw: nothing changes; otherwise the rows become `Reordered` over the split and trimmed list, and the cells and settings are unchanged |

## Left out

- Persistence (`BreaklistStore`: the JSON file, the lock) and `Program.cs` are not part of this model. Each action works on one `BreaklistState` object, which stands for "load, change, save".
- HTTP plumbing is left out: `IFormFile` copying, `TempData`, `ViewBag`, antiforgery, and the result objects. The results are reduced to the `Outcome` datatype, and `TempData["Error"]` is the argument of `RedirectToUpload`.
- Spreadsheet decoding is not modelled. The workbook is an input (`Spreadsheet.Workbook`): sheet names, typed cells and the used range. Bytes that are not a valid workbook make the decoder throw; that path is not modelled.
- The culture-dependent parsers, `DateTime.FromOADate`, `object.ToString()` and the culture's string order are fields of `Platform.Runtime`, taken as given. Only their result types, and the total preorder of the name order, are relied on.
- `Guid.NewGuid()` is a parameter: the parser takes a function from row index to id, and `AddRow` takes the new id.
- `UploadedAt` (`DateTime.UtcNow`) is not modelled. The `fileName` argument of `Parse` is not modelled either, because the code shown never uses it.
- Null strings are not modelled. Every `?? ""` in the actions is the identity on the model's strings.
- Strings are sequences of Unicode scalar values, while C# strings are sequences of UTF-16 code units. The two agree for text inside the Basic Multilingual Plane. Outside it they differ: a character such as an emoji is one element in the model and two code units in C#. So `CellEntry` keeps the first six characters where `Substring(0, 6)` keeps six code units: four emoji are kept whole in the model, three in C#, and an odd cut splits a surrogate pair there.
- `IntToString` writes a negative number with an ASCII hyphen-minus. The cell key `$"{rowId}:{slot}"` formats `slot` with the current culture, whose `NegativeSign` may be another character (U+2212 in some cultures). Only negative slots are affected, and distinct slots still give distinct keys.
- Ignore-case comparison folds ASCII letters only, and white space is the set `char.IsWhiteSpace` accepts. `StartsWith(prefix)` is modelled as ordinal, although .NET compares culture-sensitively there.
- Integers are unbounded. The source's 32-bit `int` arithmetic on minutes cannot overflow for values in (-1440, 1440) plus a window of at most a few days, so no wrap-around is modelled there.
- The `(int)ts.TotalMinutes` cast is inside the `Platform.Runtime` parsers and the `TimeSpanValue` cell: they give the truncated minute count as an unbounded integer. For a duration of 2^31 minutes or more (about 1.49 million days, which `TimeSpan` can hold) C#'s unchecked cast gives an unspecified value instead; that case is not modelled.
- `DateTime.FromOADate` throws for a serial number outside its range (before the year 100 or after 9999), which aborts the upload with an unhandled exception. `Platform.Runtime.fromOADate` is total, so the model reads every number cell as some clock time; that failure path is not modelled.
- `Upload`'s `parsed.Count == 0` branch is unreachable: the parser always reports an error when it returns no rows (`ShiftReportParser.ParseReport`). The model keeps the branch, but no input reaches it.
- ShiftReportParser.ParseReportEndsAfterStarts: proved only when no end cell is a duration of 18 hours or more below zero. For such a cell the source can store an end before the start (`ShiftReportParser.FarNegativeEndPrecedesStart`).
- ShiftReportParser.ShiftOf and ShiftReportParser.ReadShift: "the end is at most a day after the start" is proved only for a start minute above -1080 (every clock time and every duration above -18:00). A start cell holding a duration of 18 hours or more below zero lands early on the first day, and the source can then store an end more than a day after it (`ShiftReportParser.FarNegativeStartEndsLater`).
- BreaklistController.EditedRow: "the start lands at or after the day start" and "the end lies after the start" are proved only for parsed times less than a day before the window start (a value above `dayStart - 1440`). A parsed time of a day or more before it, which a negative `TimeSpan` text can give, breaks them in the source.
- BreaklistController.ReorderRows: requires distinct row ids, because the source's `ToDictionary` throws otherwise (`Reorder` models that case as `DuplicateKeyError`). Rows are values, so a row listed twice is modelled by giving every copy with that id the later `SortOrder`, which is what aliasing of one object does.
- BreaklistController.ReorderedKeepsEveryRow and BreaklistController.ReorderedInventsNoRow: the permutation of `Reorder` is stated as mutual containment up to `SortOrder` plus equal length (`ReorderedKeepsCount`, for a list without repeated entries), not as one multiset equation.

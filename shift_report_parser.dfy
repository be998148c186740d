/**
 * `ShiftReportParser`: reads staff names and shift times from the decoded
 * workbook and turns them into schedule rows on the fixed 06:00 + 25h window.
 */
module ShiftReportParser {

  import opened Common
  import opened DotNet
  import opened StableSort
  import opened TimeWindow
  import opened Models
  import opened Spreadsheet
  import opened Platform

  const ReportDayStart := 360
  /** 07:00 on the next day. */
  const ReportWindowEnd := ReportDayStart + 1500
  const MaxHeaderScanRows := 40
  const DefaultEndColumn := 50
  const DefaultShiftMinutes := 8 * 60

  const ReportSheetName := "Report"
  const HeaderText := "Employee Full Name"
  const NameHeaders := ["Employee Full Name", "Employee Name", "Name"]
  const StartHeaders := ["Start Time", "Start"]
  const EndHeaders := ["End Time", "End"]
  const DefaultNameColumn := 1
  const DefaultStartColumn := 10
  const DefaultEndColumnIndex := 14

  const NoWorksheetError := "No worksheet found in this file."
  const NoHeaderError := "Could not find header row. Expected 'Employee Full Name' in column A."
  const NoRowsError := "Worksheet 'Report' was found, but no valid rows were parsed. Check that Start Time cells are real times/datetimes."

  /** The first `i` in `lo..hi` for which `p` holds, if any. */
  function FirstFrom(lo: int, hi: int, p: int -> bool): (r: Option<int>)
    decreases hi - lo
    ensures r.Some? ==> lo <= r.value <= hi && p(r.value)
    ensures r.Some? ==> forall i :: lo <= i < r.value ==> !p(i)
    ensures r.None? ==> forall i :: lo <= i <= hi ==> !p(i)
  {
    if lo > hi then None else if p(lo) then Some(lo) else FirstFrom(lo + 1, hi, p)
  }

  // ---------------------------------------------------------------- worksheet

  predicate IsReportSheet(ws: Worksheet) {
    EqualsIgnoreCase(ws.name, ReportSheetName)
  }

  /** Position of the first worksheet named "Report" (ignoring case). */
  function ReportSheetIndex(book: Workbook): (r: Option<int>)
    ensures r.Some? ==> 0 <= r.value < |book| && IsReportSheet(book[r.value])
    ensures r.Some? ==> forall i :: 0 <= i < r.value ==> !IsReportSheet(book[i])
    ensures r.None? ==> forall i :: 0 <= i < |book| ==> !IsReportSheet(book[i])
  {
    var p := i => 0 <= i < |book| && IsReportSheet(book[i]);
    assert forall i :: p(i) <==> 0 <= i < |book| && IsReportSheet(book[i]);
    FirstFrom(0, |book| - 1, p)
  }

  /** The "Report" worksheet if there is one, else the first worksheet; none only for an empty workbook. */
  function SelectWorksheet(book: Workbook): (ws: Option<Worksheet>)
    ensures ws.None? <==> book == []
    ensures ws.Some? && ReportSheetIndex(book).None? ==> ws.value == book[0]
    ensures ws.Some? && ReportSheetIndex(book).Some? ==> ws.value == book[ReportSheetIndex(book).value]
  {
    match ReportSheetIndex(book)
    case Some(i) => Some(book[i])
    case None => if book == [] then None else Some(book[0])
  }

  // ---------------------------------------------------------------- cells

  /** `cell.Value?.ToString()`. */
  function CellString(rt: Runtime, v: CellValue): (s: Option<string>)
    ensures s.None? <==> v.Empty?
  {
    match v
    case Empty => None
    case Text(t) => Some(t)
    case _ => Some(rt.display(v))
  }

  /** `cell.Value?.ToString()?.Trim()`, with a missing value read as "". */
  function TrimmedCellText(rt: Runtime, ws: Worksheet, row: int, column: int): (s: string)
    ensures IsTrimmed(s)
  {
    match CellString(rt, CellAt(ws, row, column))
    case None => ""
    case Some(t) => Trim(t)
  }

  /**
   * `ParseTimeToMinutes`: a minute of the day from a typed cell. Tried in order:
   * a date-time's hour and minute, a duration's whole minutes reduced with C#'s
   * `%`, a number read as an OLE Automation date, and for anything else its
   * trimmed text, as a duration (invariant culture) and then as a date-time
   * (current culture, then invariant culture).
   */
  function ParseTimeToMinutes(rt: Runtime, v: CellValue): (r: Option<int>)
    ensures r.Some? ==> -MinutesPerDay < r.value < MinutesPerDay
    ensures v.Empty? ==> r.None?
    ensures v.DateTimeValue? || v.Number? ==> r.Some? && 0 <= r.value < MinutesPerDay
    ensures v.DateTimeValue? ==> r == Some(MinuteOfDay(v.time))
    ensures v.Number? ==> r == Some(MinuteOfDay(rt.fromOADate(v.serial)))
    ensures v.TimeSpanValue? ==> r == Some(CsRem(v.totalMinutes, MinutesPerDay))
    ensures v.TimeSpanValue? ==> r.value % MinutesPerDay == v.totalMinutes % MinutesPerDay
    ensures v.TimeSpanValue? && v.totalMinutes >= 0 ==> 0 <= r.value
    ensures v.Text? && IsBlank(v.text) ==> r.None?
    // Text: a duration first, then a date-time in the current culture, then in the invariant culture.
    ensures v.Text? && !IsBlank(v.text) && rt.parseTimeSpanInvariant(Trim(v.text)).Some? ==>
              r == Some(CsRem(rt.parseTimeSpanInvariant(Trim(v.text)).value, MinutesPerDay))
    ensures v.Text? && !IsBlank(v.text) && rt.parseTimeSpanInvariant(Trim(v.text)).None?
              && rt.parseDateTime(Trim(v.text)).Some? ==>
              r == Some(MinuteOfDay(rt.parseDateTime(Trim(v.text)).value))
    ensures v.Text? && !IsBlank(v.text) && rt.parseTimeSpanInvariant(Trim(v.text)).None?
              && rt.parseDateTime(Trim(v.text)).None? ==>
              r == (match rt.parseDateTimeInvariant(Trim(v.text))
                    case Some(t) => Some(MinuteOfDay(t))
                    case None => None)
  {
    match v
    case Empty => None
    case DateTimeValue(t) => Some(MinuteOfDay(t))
    case TimeSpanValue(m) =>
      CsRemWrapsToEuclidean(m, MinutesPerDay);
      Some(CsRem(m, MinutesPerDay))
    case Number(d) =>
      Some(MinuteOfDay(rt.fromOADate(d)))
    case Text(text) =>
      var s := Trim(text);
      if s == "" then None
      else match rt.parseTimeSpanInvariant(s)
        case Some(m) => Some(CsRem(m, MinutesPerDay))
        case None =>
          match rt.parseDateTime(s)
          case Some(t) => Some(MinuteOfDay(t))
          case None =>
            match rt.parseDateTimeInvariant(s)
            case Some(t) => Some(MinuteOfDay(t))
            case None => None
  }

  // ---------------------------------------------------------------- header

  function MaxScanRows(ws: Worksheet): int {
    var last := match ws.dimension case Some(e) => e.lastRow case None => 1;
    if last < MaxHeaderScanRows then last else MaxHeaderScanRows
  }

  predicate IsHeaderAt(rt: Runtime, ws: Worksheet, row: int) {
    var v := TrimmedCellText(rt, ws, row, 1);
    v != "" && EqualsIgnoreCase(v, HeaderText)
  }

  function HeaderTest(rt: Runtime, ws: Worksheet): int -> bool {
    row => IsHeaderAt(rt, ws, row)
  }

  /** The first row among the first `min(lastRow, 40)` whose column 1 reads "Employee Full Name". */
  function HeaderRowOf(rt: Runtime, ws: Worksheet): (r: Option<int>)
    ensures r.Some? ==> 1 <= r.value <= MaxScanRows(ws) && r.value <= MaxHeaderScanRows
    ensures r.Some? ==> IsHeaderAt(rt, ws, r.value)
    ensures r.Some? ==> forall row :: 1 <= row < r.value ==> !IsHeaderAt(rt, ws, row)
    ensures r.None? ==> forall row :: 1 <= row <= MaxScanRows(ws) ==> !IsHeaderAt(rt, ws, row)
  {
    var p := HeaderTest(rt, ws);
    assert forall row :: p(row) == IsHeaderAt(rt, ws, row);
    FirstFrom(1, MaxScanRows(ws), p)
  }

  /** The header scan of `Parse`; -1 when no row qualifies. */
  method FindHeaderRow(rt: Runtime, ws: Worksheet) returns (headerRow: int)
    ensures headerRow == -1 <==> HeaderRowOf(rt, ws).None?
    ensures headerRow != -1 ==> HeaderRowOf(rt, ws) == Some(headerRow)
  {
    headerRow := -1;
    var maxScanRows := MaxScanRows(ws);
    var r := 1;
    while r <= maxScanRows
      invariant 1 <= r && headerRow == -1
      invariant FirstFrom(r, maxScanRows, HeaderTest(rt, ws)) == HeaderRowOf(rt, ws)
    {
      if IsHeaderAt(rt, ws, r) {
        headerRow := r;
        break;
      }
      r := r + 1;
    }
  }

  // ---------------------------------------------------------------- columns

  function EndColumn(ws: Worksheet): int {
    match ws.dimension case Some(e) => e.lastColumn case None => DefaultEndColumn
  }

  /** `new HashSet<string>(names.Select(n => n.Trim()), OrdinalIgnoreCase).Contains(v)`. */
  predicate MatchesAny(v: string, names: seq<string>) {
    names != [] && (EqualsIgnoreCase(v, Trim(names[0])) || MatchesAny(v, names[1..]))
  }

  /** `MatchesAny` is membership in the set of trimmed names, ignoring case. */
  lemma {:induction false} MatchesAnyIff(v: string, names: seq<string>)
    ensures MatchesAny(v, names) <==> exists i :: 0 <= i < |names| && EqualsIgnoreCase(v, Trim(names[i]))
  {
    if names != [] {
      var tail := names[1..];
      MatchesAnyIff(v, tail);
      if MatchesAny(v, names) && !EqualsIgnoreCase(v, Trim(names[0])) {
        var i :| 0 <= i < |tail| && EqualsIgnoreCase(v, Trim(tail[i]));
        assert tail[i] == names[i + 1];
      }
      if exists i :: 0 <= i < |names| && EqualsIgnoreCase(v, Trim(names[i])) {
        var i :| 0 <= i < |names| && EqualsIgnoreCase(v, Trim(names[i]));
        if i > 0 {
          assert tail[i - 1] == names[i];
        }
      }
    }
  }

  /** The header text at `column` is not empty and matches one of `names`. */
  predicate IsWantedAt(rt: Runtime, ws: Worksheet, headerRow: int, column: int, names: seq<string>) {
    var v := TrimmedCellText(rt, ws, headerRow, column);
    v != "" && MatchesAny(v, names)
  }

  function ColumnTest(rt: Runtime, ws: Worksheet, headerRow: int, names: seq<string>): int -> bool {
    col => IsWantedAt(rt, ws, headerRow, col, names)
  }

  /** The first column in `1..EndColumn` whose header matches one of `names`. */
  function ColumnOf(rt: Runtime, ws: Worksheet, headerRow: int, names: seq<string>): (c: Option<int>)
    ensures c.Some? ==> 1 <= c.value <= EndColumn(ws) && IsWantedAt(rt, ws, headerRow, c.value, names)
    ensures c.Some? ==> forall col :: 1 <= col < c.value ==> !IsWantedAt(rt, ws, headerRow, col, names)
    ensures c.None? ==> forall col :: 1 <= col <= EndColumn(ws) ==> !IsWantedAt(rt, ws, headerRow, col, names)
  {
    var p := ColumnTest(rt, ws, headerRow, names);
    assert forall col :: p(col) == IsWantedAt(rt, ws, headerRow, col, names);
    FirstFrom(1, EndColumn(ws), p)
  }

  /** `FindCol`: the column scan; `None` is C#'s null. */
  method FindCol(rt: Runtime, ws: Worksheet, headerRow: int, names: seq<string>) returns (column: Option<int>)
    ensures column == ColumnOf(rt, ws, headerRow, names)
  {
    var endCol := EndColumn(ws);
    var c := 1;
    while c <= endCol
      invariant 1 <= c
      invariant FirstFrom(c, endCol, ColumnTest(rt, ws, headerRow, names)) == ColumnOf(rt, ws, headerRow, names)
    {
      if IsWantedAt(rt, ws, headerRow, c, names) {
        return Some(c);
      }
      c := c + 1;
    }
    return None;
  }

  datatype Columns = Columns(name: int, start: int, end: int)

  /**
   * The name, start and end columns: for each, the first column whose header
   * matches one of its names, or 1, 10 and 14 when none does.
   */
  function ColumnsOf(rt: Runtime, ws: Worksheet, headerRow: int): (cols: Columns)
    ensures ColumnOf(rt, ws, headerRow, NameHeaders).None? ==> cols.name == DefaultNameColumn
    ensures ColumnOf(rt, ws, headerRow, NameHeaders).Some? ==> cols.name == ColumnOf(rt, ws, headerRow, NameHeaders).value
    ensures ColumnOf(rt, ws, headerRow, StartHeaders).None? ==> cols.start == DefaultStartColumn
    ensures ColumnOf(rt, ws, headerRow, StartHeaders).Some? ==> cols.start == ColumnOf(rt, ws, headerRow, StartHeaders).value
    ensures ColumnOf(rt, ws, headerRow, EndHeaders).None? ==> cols.end == DefaultEndColumnIndex
    ensures ColumnOf(rt, ws, headerRow, EndHeaders).Some? ==> cols.end == ColumnOf(rt, ws, headerRow, EndHeaders).value
    ensures 1 <= cols.name && 1 <= cols.start && 1 <= cols.end
  {
    Columns(
      match ColumnOf(rt, ws, headerRow, NameHeaders) case Some(c) => c case None => DefaultNameColumn,
      match ColumnOf(rt, ws, headerRow, StartHeaders) case Some(c) => c case None => DefaultStartColumn,
      match ColumnOf(rt, ws, headerRow, EndHeaders) case Some(c) => c case None => DefaultEndColumnIndex)
  }

  // ---------------------------------------------------------------- data rows

  /** The parsed fields of one data row. */
  datatype Shift = Shift(name: string, startAbsMin: int, endAbsMin: int)

  /**
   * Normalises a start and an end minute of the day onto the report's window:
   * the start keeps its clock time and, for a clock-of-day minute, falls in the
   * window's first 24 hours; the end keeps its clock time unless clamped to the
   * window's end, and comes after the start unless it is 18 hours or more below
   * zero.
   */
  function ShiftOf(name: string, startMinutes: int, endMinutes: int): (s: Shift)
    ensures s.name == name
    ensures s.startAbsMin % MinutesPerDay == startMinutes % MinutesPerDay
    ensures -MinutesPerDay < startMinutes < MinutesPerDay ==> 0 < s.startAbsMin < ReportDayStart + MinutesPerDay
    ensures 0 <= startMinutes < MinutesPerDay ==> ReportDayStart <= s.startAbsMin
    ensures s.endAbsMin <= ReportWindowEnd
    ensures s.endAbsMin == ReportWindowEnd || s.endAbsMin % MinutesPerDay == endMinutes % MinutesPerDay
    ensures -MinutesPerDay < startMinutes < MinutesPerDay && endMinutes > ReportDayStart - MinutesPerDay ==>
              s.startAbsMin < s.endAbsMin
    ensures ReportDayStart - MinutesPerDay < startMinutes && endMinutes < ReportDayStart + MinutesPerDay ==>
              s.endAbsMin <= s.startAbsMin + MinutesPerDay
    ensures ReportDayStart - MinutesPerDay < startMinutes < ReportDayStart + MinutesPerDay
            && ReportDayStart - MinutesPerDay < endMinutes < ReportDayStart + MinutesPerDay ==>
              s.endAbsMin == ClampToWindow(NextClockTime(s.startAbsMin, endMinutes), ReportWindowEnd)
  {
    var startAbs := NormalizeToWindow(startMinutes, ReportDayStart);
    ShiftByDays(startMinutes, 1);
    Shift(name, startAbs, WindowedEnd(startAbs, endMinutes, ReportDayStart, ReportWindowEnd))
  }

  /** The minute value read from a row's start cell, if it has one. */
  function StartMinutes(rt: Runtime, ws: Worksheet, cols: Columns, row: int): Option<int> {
    ParseTimeToMinutes(rt, CellAt(ws, row, cols.start))
  }

  /** The minute value read from a row's end cell, if it has one. */
  function EndMinutes(rt: Runtime, ws: Worksheet, cols: Columns, row: int): Option<int> {
    ParseTimeToMinutes(rt, CellAt(ws, row, cols.end))
  }

  /**
   * The end cell is not a duration of 18 hours or more below zero: the one case in
   * which the end-after-start rule cannot put the end after the start.
   */
  predicate EndIsNotFarNegative(rt: Runtime, ws: Worksheet, cols: Columns, row: int) {
    match EndMinutes(rt, ws, cols, row)
    case Some(e) => e > ReportDayStart - MinutesPerDay
    case None => true
  }

  /**
   * One data row: skipped exactly when the trimmed name is blank or the start cell
   * gives no minute value; a missing or unreadable end becomes the clock time
   * 8 hours after the start.
   */
  function ReadShift(rt: Runtime, ws: Worksheet, cols: Columns, row: int): (s: Option<Shift>)
    ensures s.Some? <==> TrimmedCellText(rt, ws, row, cols.name) != "" && StartMinutes(rt, ws, cols, row).Some?
    ensures s.Some? ==> s.value.name == TrimmedCellText(rt, ws, row, cols.name)
    ensures s.Some? ==> s.value.name != "" && IsTrimmed(s.value.name)
    ensures s.Some? ==> s.value.startAbsMin % MinutesPerDay == StartMinutes(rt, ws, cols, row).value % MinutesPerDay
    ensures s.Some? ==> 0 < s.value.startAbsMin < ReportDayStart + MinutesPerDay
    ensures s.Some? && StartMinutes(rt, ws, cols, row).value >= 0 ==> ReportDayStart <= s.value.startAbsMin
    ensures s.Some? ==> s.value.endAbsMin <= ReportWindowEnd
    ensures s.Some? && EndMinutes(rt, ws, cols, row).Some? ==>
              s.value.endAbsMin == ReportWindowEnd
              || s.value.endAbsMin % MinutesPerDay == EndMinutes(rt, ws, cols, row).value % MinutesPerDay
    ensures s.Some? && EndMinutes(rt, ws, cols, row).None? ==>
              s.value.endAbsMin == ClampToWindow(s.value.startAbsMin + DefaultShiftMinutes, ReportWindowEnd)
    ensures s.Some? && EndIsNotFarNegative(rt, ws, cols, row) ==> s.value.startAbsMin < s.value.endAbsMin
    ensures s.Some? && StartMinutes(rt, ws, cols, row).value > ReportDayStart - MinutesPerDay ==>
              s.value.endAbsMin <= s.value.startAbsMin + MinutesPerDay
    ensures s.Some? && StartMinutes(rt, ws, cols, row).value > ReportDayStart - MinutesPerDay
            && EndIsNotFarNegative(rt, ws, cols, row) && EndMinutes(rt, ws, cols, row).Some? ==>
              s.value.endAbsMin == ClampToWindow(NextClockTime(s.value.startAbsMin, EndMinutes(rt, ws, cols, row).value), ReportWindowEnd)
  {
    var name := TrimmedCellText(rt, ws, row, cols.name);
    if name == "" then None
    else
      match StartMinutes(rt, ws, cols, row)
      case None => None
      case Some(start) =>
        var end := match EndMinutes(rt, ws, cols, row)
                   case Some(e) => e
                   case None => CsRem(start + DefaultShiftMinutes, MinutesPerDay);
        var shift := ShiftOf(name, start, end);
        assert EndMinutes(rt, ws, cols, row).None? ==>
               shift.endAbsMin == ClampToWindow(shift.startAbsMin + DefaultShiftMinutes, ReportWindowEnd) by {
          if EndMinutes(rt, ws, cols, row).None? {
            DefaultEndOfShift(shift.startAbsMin, start);
          }
        }
        Some(shift)
  }

  /**
   * The default end, the clock time 8 hours after the start, is 8 hours after the
   * normalised start, for any start minute a cell can give (a negative duration
   * included).
   */
  lemma DefaultEndOfShift(startAbs: int, start: int)
    requires -MinutesPerDay < start < MinutesPerDay
    requires startAbs == NormalizeToWindow(start, ReportDayStart)
    ensures WindowedEnd(startAbs, CsRem(start + DefaultShiftMinutes, MinutesPerDay), ReportDayStart, ReportWindowEnd)
         == ClampToWindow(startAbs + DefaultShiftMinutes, ReportWindowEnd)
  {
    if start < 0 {
      DefaultEndOfNegativeStart(startAbs, start);
    } else {
      DefaultEndOfClockStart(startAbs, start);
    }
  }

  /** A negative start: the default end is `start + 480` itself, which normalises to 8 hours after the start. */
  lemma DefaultEndOfNegativeStart(startAbs: int, start: int)
    requires -MinutesPerDay < start < 0
    requires startAbs == NormalizeToWindow(start, ReportDayStart)
    ensures WindowedEnd(startAbs, CsRem(start + DefaultShiftMinutes, MinutesPerDay), ReportDayStart, ReportWindowEnd)
         == ClampToWindow(startAbs + DefaultShiftMinutes, ReportWindowEnd)
  {
    var e := start + DefaultShiftMinutes;
    assert CsRem(e, MinutesPerDay) == e by {
      if e >= 0 {
        assert e % MinutesPerDay == e;
      } else {
        assert (-e) % MinutesPerDay == -e;
      }
    }
    assert startAbs == start + MinutesPerDay;
  }

  /** A clock-of-day start: the default end lands 8 hours after the normalised start. */
  lemma DefaultEndOfClockStart(startAbs: int, start: int)
    requires 0 <= start < MinutesPerDay
    requires startAbs == NormalizeToWindow(start, ReportDayStart)
    ensures WindowedEnd(startAbs, CsRem(start + DefaultShiftMinutes, MinutesPerDay), ReportDayStart, ReportWindowEnd)
         == ClampToWindow(startAbs + DefaultShiftMinutes, ReportWindowEnd)
  {
    ShiftByDays(start + DefaultShiftMinutes, 1);
    assert CsRem(start + DefaultShiftMinutes, MinutesPerDay) == (startAbs + DefaultShiftMinutes) % MinutesPerDay;
    WindowedEndLater(startAbs, DefaultShiftMinutes, ReportDayStart, ReportWindowEnd);
  }

  /** What every emitted row satisfies: a trimmed, non-blank name and times inside the report's window. */
  predicate WithinReportWindow(row: Row) {
    && row.name != "" && IsTrimmed(row.name)
    && 0 < row.startAbsMin < ReportDayStart + MinutesPerDay
    && row.endAbsMin <= ReportWindowEnd
  }

  /** `ReadShift` over the rows of one sheet, as a function of the row number. */
  function ShiftReader(rt: Runtime, ws: Worksheet, cols: Columns): int -> Option<Shift> {
    row => ReadShift(rt, ws, cols, row)
  }

  /** The sheet rows among `lo .. hi - 1` that `read` turns into a shift, in sheet order. */
  function KeptRows(read: int -> Option<Shift>, lo: int, hi: int): (kept: seq<int>)
    decreases hi - lo
    ensures |kept| <= if hi <= lo then 0 else hi - lo
    ensures forall k :: 0 <= k < |kept| ==> lo <= kept[k] < hi && read(kept[k]).Some?
    ensures forall i, j :: 0 <= i < j < |kept| ==> kept[i] < kept[j]
  {
    if hi <= lo then []
    else
      var prev := KeptRows(read, lo, hi - 1);
      if read(hi - 1).Some? then prev + [hi - 1] else prev
  }

  /** No row of the range that reads as a shift is skipped. */
  lemma {:induction false} KeptRowsComplete(read: int -> Option<Shift>, lo: int, hi: int, row: int)
    requires lo <= row < hi && read(row).Some?
    decreases hi - lo
    ensures row in KeptRows(read, lo, hi)
  {
    if row < hi - 1 {
      KeptRowsComplete(read, lo, hi - 1, row);
    }
  }

  /** `new BreaklistRow { Name, StartAbsMin, EndAbsMin }` for a shift, under a fresh id. */
  function NewRow(id: string, s: Shift): Row {
    Row(id, 0, s.name, s.startAbsMin, s.endAbsMin)
  }

  /** The row shows the shift's name and times. */
  predicate Carries(row: Row, s: Shift) {
    row.name == s.name && row.startAbsMin == s.startAbsMin && row.endAbsMin == s.endAbsMin
  }

  /**
   * The rows that rows `lo .. hi - 1` yield through `read`: one per kept sheet
   * row, in sheet order, the k-th taking `freshId(k)` as its id and `SortOrder` 0,
   * as `new BreaklistRow` does.
   */
  function CollectRows(read: int -> Option<Shift>, freshId: nat -> string, lo: int, hi: int): (rows: seq<Row>)
    decreases hi - lo
    ensures |rows| == |KeptRows(read, lo, hi)|
    ensures forall k :: 0 <= k < |rows| ==> rows[k] == NewRow(freshId(k), read(KeptRows(read, lo, hi)[k]).value)
    ensures forall k :: 0 <= k < |rows| ==> rows[k].id == freshId(k)
    ensures forall k :: 0 <= k < |rows| ==> rows[k].sortOrder == 0
  {
    if hi <= lo then []
    else
      var prev := CollectRows(read, freshId, lo, hi - 1);
      var next := read(hi - 1);
      if next.None? then prev
      else prev + [NewRow(freshId(|prev|), next.value)]
  }

  /** Every collected row has a trimmed, non-blank name and times inside the report's window. */
  lemma {:induction false} CollectedRowsWithinWindow(rt: Runtime, ws: Worksheet, cols: Columns, freshId: nat -> string, lo: int, hi: int)
    decreases hi - lo
    ensures forall k :: 0 <= k < |CollectRows(ShiftReader(rt, ws, cols), freshId, lo, hi)| ==>
              WithinReportWindow(CollectRows(ShiftReader(rt, ws, cols), freshId, lo, hi)[k])
  {
    if hi > lo {
      CollectedRowsWithinWindow(rt, ws, cols, freshId, lo, hi - 1);
      var next := ReadShift(rt, ws, cols, hi - 1);
      assert ShiftReader(rt, ws, cols)(hi - 1) == next;
    }
  }

  /** When no end cell in `lo .. hi - 1` is far negative, every collected row ends after it starts. */
  lemma {:induction false} CollectedRowsEndAfterStart(rt: Runtime, ws: Worksheet, cols: Columns, freshId: nat -> string, lo: int, hi: int)
    requires forall row :: lo <= row < hi ==> EndIsNotFarNegative(rt, ws, cols, row)
    decreases hi - lo
    ensures forall k :: 0 <= k < |CollectRows(ShiftReader(rt, ws, cols), freshId, lo, hi)| ==>
              CollectRows(ShiftReader(rt, ws, cols), freshId, lo, hi)[k].startAbsMin
                < CollectRows(ShiftReader(rt, ws, cols), freshId, lo, hi)[k].endAbsMin
  {
    if hi > lo {
      CollectedRowsEndAfterStart(rt, ws, cols, freshId, lo, hi - 1);
      var next := ReadShift(rt, ws, cols, hi - 1);
      assert ShiftReader(rt, ws, cols)(hi - 1) == next;
    }
  }

  function LastRow(ws: Worksheet, headerRow: int): int {
    match ws.dimension case Some(e) => e.lastRow case None => headerRow
  }

  /**
   * The rows collected below the header of the selected sheet, before sorting:
   * the k-th takes `freshId(k)` and `SortOrder` 0.
   */
  function Collected(rt: Runtime, book: Workbook, freshId: nat -> string): (rows: seq<Row>)
    ensures forall k :: 0 <= k < |rows| ==> rows[k].id == freshId(k)
    ensures forall k :: 0 <= k < |rows| ==> rows[k].sortOrder == 0
  {
    match SelectWorksheet(book)
    case None => []
    case Some(ws) =>
      match HeaderRowOf(rt, ws)
      case None => []
      case Some(h) => RowsBelowHeader(rt, ws, h, freshId)
  }

  /** The rows collected from the rows below `headerRow`, through the columns that header names. */
  function RowsBelowHeader(rt: Runtime, ws: Worksheet, headerRow: int, freshId: nat -> string): (rows: seq<Row>)
    ensures forall k :: 0 <= k < |rows| ==> rows[k].id == freshId(k)
    ensures forall k :: 0 <= k < |rows| ==> rows[k].sortOrder == 0
  {
    var cols := ColumnsOf(rt, ws, headerRow);
    CollectRows(ShiftReader(rt, ws, cols), freshId, headerRow + 1, LastRow(ws, headerRow) + 1)
  }

  /** Every collected row has a trimmed, non-blank name and times inside the report's window. */
  lemma CollectedWithinWindow(rt: Runtime, book: Workbook, freshId: nat -> string)
    ensures forall k :: 0 <= k < |Collected(rt, book, freshId)| ==> WithinReportWindow(Collected(rt, book, freshId)[k])
  {
    if Collected(rt, book, freshId) != [] {
      CollectedBelowHeader(rt, book, freshId);
      var ws := SelectWorksheet(book).value;
      var h := HeaderRowOf(rt, ws).value;
      RowsBelowHeaderAreCollected(rt, ws, h, freshId);
      CollectedRowsWithinWindow(rt, ws, ColumnsOf(rt, ws, h), freshId, h + 1, LastRow(ws, h) + 1);
    }
  }

  datatype ParseResult = ParseResult(rows: seq<Row>, error: Option<string>)

  /** What `Parse` returns: the sorted, numbered rows, or an error and no rows. */
  function ParseReport(rt: Runtime, book: Workbook, freshId: nat -> string): (result: ParseResult)
    ensures result.error.Some? <==> result.rows == []
    ensures result.error == Some(NoWorksheetError) <==> book == []
    ensures result.error == Some(NoHeaderError) <==>
              SelectWorksheet(book).Some? && HeaderRowOf(rt, SelectWorksheet(book).value).None?
    ensures result.error == Some(NoRowsError) <==>
              SelectWorksheet(book).Some? && HeaderRowOf(rt, SelectWorksheet(book).value).Some?
              && Collected(rt, book, freshId) == []
  {
    assert |NoWorksheetError| < |NoHeaderError| < |NoRowsError|;
    match SelectWorksheet(book)
    case None => ParseResult([], Some(NoWorksheetError))
    case Some(ws) =>
      match HeaderRowOf(rt, ws)
      case None => ParseResult([], Some(NoHeaderError))
      case Some(h) =>
        var collected := Collected(rt, book, freshId);
        if collected == [] then ParseResult([], Some(NoRowsError))
        else ParseResult(Numbered(SortBy(collected, ByStartThenName(rt.nameLe))), None)
  }

  /** The data-row loop of `Parse`: rows `headerRow + 1 .. lastRow`, in sheet order. */
  method CollectDataRows(rt: Runtime, ws: Worksheet, cols: Columns, freshId: nat -> string, headerRow: int) returns (collected: seq<Row>)
    requires cols == ColumnsOf(rt, ws, headerRow)
    ensures collected == RowsBelowHeader(rt, ws, headerRow, freshId)
  {
    collected := [];
    var lastRow := LastRow(ws, headerRow);
    var r := headerRow + 1;
    while r <= lastRow
      invariant headerRow + 1 <= r
      invariant r <= lastRow + 1 || r == headerRow + 1
      invariant collected == CollectRows(ShiftReader(rt, ws, cols), freshId, headerRow + 1, r)
    {
      var next := ReadShift(rt, ws, cols, r);
      assert ShiftReader(rt, ws, cols)(r) == next;
      if next.Some? {
        collected := collected + [NewRow(freshId(|collected|), next.value)];
      }
      r := r + 1;
    }
  }

  /**
   * `Parse`: select the sheet, find the header row and the columns, collect the
   * data rows, then sort them by (start, name) and number them.
   */
  method Parse(rt: Runtime, book: Workbook, freshId: nat -> string) returns (rows: seq<Row>, error: Option<string>)
    ensures ParseResult(rows, error) == ParseReport(rt, book, freshId)
    ensures error.Some? <==> rows == []
    ensures forall i :: 0 <= i < |rows| ==> rows[i].sortOrder == i
  {
    var selected := SelectWorksheet(book);
    if selected.None? {
      return [], Some(NoWorksheetError);
    }
    var ws := selected.value;

    var headerRow := FindHeaderRow(rt, ws);
    if headerRow == -1 {
      return [], Some(NoHeaderError);
    }
    assert HeaderRowOf(rt, ws) == Some(headerRow);

    var nameCol := FindCol(rt, ws, headerRow, NameHeaders);
    var startCol := FindCol(rt, ws, headerRow, StartHeaders);
    var endCol := FindCol(rt, ws, headerRow, EndHeaders);
    var cols := Columns(
      if nameCol.Some? then nameCol.value else DefaultNameColumn,
      if startCol.Some? then startCol.value else DefaultStartColumn,
      if endCol.Some? then endCol.value else DefaultEndColumnIndex);
    assert cols == ColumnsOf(rt, ws, headerRow);

    var collected := CollectDataRows(rt, ws, cols, freshId, headerRow);
    assert collected == Collected(rt, book, freshId);

    if collected == [] {
      return [], Some(NoRowsError);
    }
    rows := AssignSortOrders(SortBy(collected, ByStartThenName(rt.nameLe)));
    error := None;
    assert ParseReport(rt, book, freshId) == ParseResult(Numbered(SortBy(collected, ByStartThenName(rt.nameLe))), None);
  }

  // ---------------------------------------------------------------- properties of the result

  /** Each returned row is a collected row, renumbered. */
  lemma ReportedRowIsCollected(rt: Runtime, book: Workbook, freshId: nat -> string, i: int)
    requires 0 <= i < |ParseReport(rt, book, freshId).rows|
    ensures ParseReport(rt, book, freshId).rows[i].(sortOrder := 0) in Collected(rt, book, freshId)
  {
    var c := Collected(rt, book, freshId);
    var s := SortBy(c, ByStartThenName(rt.nameLe));
    assert ParseReport(rt, book, freshId).rows == Numbered(s);
    assert s[i] in multiset(c);
  }

  /**
   * The returned rows are the collected rows (ignoring `SortOrder`), each exactly
   * once, ordered by start time and then by name, and numbered 0, 1, 2, ...
   */
  lemma ParseReportSortedPermutation(rt: Runtime, book: Workbook, freshId: nat -> string)
    requires rt.Valid()
    ensures SortedBy(ParseReport(rt, book, freshId).rows, ByStartThenName(rt.nameLe))
    ensures forall i :: 0 <= i < |ParseReport(rt, book, freshId).rows| ==> ParseReport(rt, book, freshId).rows[i].sortOrder == i
    ensures multiset(WithoutOrders(ParseReport(rt, book, freshId).rows)) == multiset(Collected(rt, book, freshId))
  {
    var c := Collected(rt, book, freshId);
    if c != [] {
      SortByStartThenNameAndNumber(c, rt.nameLe);
      assert WithoutOrders(c) == c;
    }
  }

  /** `ParseReport` succeeds exactly when rows were collected, and then returns them sorted and numbered. */
  lemma ParseReportSucceeds(rt: Runtime, book: Workbook, freshId: nat -> string)
    ensures ParseReport(rt, book, freshId).error.None? <==> Collected(rt, book, freshId) != []
    ensures ParseReport(rt, book, freshId).error.None? ==>
              ParseReport(rt, book, freshId).rows == Numbered(SortBy(Collected(rt, book, freshId), ByStartThenName(rt.nameLe)))
  {
  }

  /** The rows below a header are those that the shift reader keeps among the rows below it. */
  lemma RowsBelowHeaderAreCollected(rt: Runtime, ws: Worksheet, h: int, freshId: nat -> string)
    ensures RowsBelowHeader(rt, ws, h, freshId)
         == CollectRows(ShiftReader(rt, ws, ColumnsOf(rt, ws, h)), freshId, h + 1, LastRow(ws, h) + 1)
  {
  }

  /** Below a found header, the report is the kept rows sorted and numbered, whenever there are some. */
  lemma ReportOfRowsBelowHeader(rt: Runtime, book: Workbook, freshId: nat -> string, ws: Worksheet, h: int)
    requires SelectWorksheet(book) == Some(ws) && HeaderRowOf(rt, ws) == Some(h)
    ensures CollectRows(ShiftReader(rt, ws, ColumnsOf(rt, ws, h)), freshId, h + 1, LastRow(ws, h) + 1) != [] ==> (
              ParseReport(rt, book, freshId).rows
           == Numbered(SortBy(CollectRows(ShiftReader(rt, ws, ColumnsOf(rt, ws, h)), freshId, h + 1, LastRow(ws, h) + 1),
                              ByStartThenName(rt.nameLe))))
  {
    RowsBelowHeaderAreCollected(rt, ws, h, freshId);
    assert Collected(rt, book, freshId) == RowsBelowHeader(rt, ws, h, freshId);
    ParseReportSucceeds(rt, book, freshId);
  }

  /** Every sheet row below the header that reads as a shift is among the returned rows. */
  lemma SheetRowIsReported(rt: Runtime, book: Workbook, freshId: nat -> string, ws: Worksheet, h: int, row: int)
    requires SelectWorksheet(book) == Some(ws) && HeaderRowOf(rt, ws) == Some(h)
    requires h < row <= LastRow(ws, h)
    requires ReadShift(rt, ws, ColumnsOf(rt, ws, h), row).Some?
    ensures exists i :: 0 <= i < |ParseReport(rt, book, freshId).rows|
              && Carries(ParseReport(rt, book, freshId).rows[i], ReadShift(rt, ws, ColumnsOf(rt, ws, h), row).value)
  {
    var shift := ReadShift(rt, ws, ColumnsOf(rt, ws, h), row).value;
    assert ShiftReader(rt, ws, ColumnsOf(rt, ws, h))(row) == Some(shift);
    ReportOfRowsBelowHeader(rt, book, freshId, ws, h);
    var i := RowBelowHeaderIsNumbered(rt, ws, h, freshId, row, shift, ParseReport(rt, book, freshId).rows);
  }

  /** A row below the header that reads as `shift` is in any `report` holding the rows below it, sorted and numbered. */
  lemma RowBelowHeaderIsNumbered(rt: Runtime, ws: Worksheet, h: int, freshId: nat -> string, row: int, shift: Shift,
                                 report: seq<Row>) returns (i: int)
    requires h < row <= LastRow(ws, h) && ShiftReader(rt, ws, ColumnsOf(rt, ws, h))(row) == Some(shift)
    requires CollectRows(ShiftReader(rt, ws, ColumnsOf(rt, ws, h)), freshId, h + 1, LastRow(ws, h) + 1) != [] ==> (
               report == Numbered(SortBy(CollectRows(ShiftReader(rt, ws, ColumnsOf(rt, ws, h)), freshId, h + 1, LastRow(ws, h) + 1),
                                         ByStartThenName(rt.nameLe))))
    ensures 0 <= i < |report| && Carries(report[i], shift)
  {
    i := KeptRowIsNumbered(ShiftReader(rt, ws, ColumnsOf(rt, ws, h)), freshId, h + 1, LastRow(ws, h) + 1,
                           ByStartThenName(rt.nameLe), row, shift, report);
  }

  /**
   * A row that `read` keeps is, with its shift, in any `report` that holds the
   * collected rows sorted and numbered whenever some were collected.
   */
  lemma KeptRowIsNumbered(read: int -> Option<Shift>, freshId: nat -> string, lo: int, hi: int,
                          le: (Row, Row) -> bool, row: int, shift: Shift, report: seq<Row>) returns (i: int)
    requires lo <= row < hi && read(row) == Some(shift)
    requires CollectRows(read, freshId, lo, hi) != [] ==> report == Numbered(SortBy(CollectRows(read, freshId, lo, hi), le))
    ensures 0 <= i < |report| && Carries(report[i], shift)
  {
    var kept := KeptRows(read, lo, hi);
    KeptRowsComplete(read, lo, hi, row);
    var k :| 0 <= k < |kept| && kept[k] == row;
    i := SortedPosition(CollectRows(read, freshId, lo, hi), le, k);
  }

  /** Where a row ends up after sorting and numbering. */
  lemma SortedPosition(c: seq<Row>, le: (Row, Row) -> bool, k: int) returns (i: int)
    requires 0 <= k < |c|
    ensures 0 <= i < |c| && Numbered(SortBy(c, le))[i] == c[k].(sortOrder := i)
  {
    assert c[k] in multiset(SortBy(c, le));
    i :| 0 <= i < |c| && SortBy(c, le)[i] == c[k];
  }

  /** The k-th row collected below a header is the shift read from some sheet row below it. */
  lemma CollectedRowIsSheetRow(rt: Runtime, ws: Worksheet, h: int, freshId: nat -> string, k: int)
    requires 0 <= k < |RowsBelowHeader(rt, ws, h, freshId)|
    ensures exists row :: h < row <= LastRow(ws, h) && ReadShift(rt, ws, ColumnsOf(rt, ws, h), row).Some?
              && RowsBelowHeader(rt, ws, h, freshId)[k] == NewRow(freshId(k), ReadShift(rt, ws, ColumnsOf(rt, ws, h), row).value)
  {
    var read := ShiftReader(rt, ws, ColumnsOf(rt, ws, h));
    var kept := KeptRows(read, h + 1, LastRow(ws, h) + 1);
    assert RowsBelowHeader(rt, ws, h, freshId) == CollectRows(read, freshId, h + 1, LastRow(ws, h) + 1);
    var row := kept[k];
    assert read(row) == ReadShift(rt, ws, ColumnsOf(rt, ws, h), row);
  }

  /** Rows are collected only below the header of the selected sheet. */
  lemma CollectedBelowHeader(rt: Runtime, book: Workbook, freshId: nat -> string)
    requires Collected(rt, book, freshId) != []
    ensures SelectWorksheet(book).Some? && HeaderRowOf(rt, SelectWorksheet(book).value).Some?
    ensures Collected(rt, book, freshId)
         == RowsBelowHeader(rt, SelectWorksheet(book).value, HeaderRowOf(rt, SelectWorksheet(book).value).value, freshId)
  {
  }

  /** Every returned row is the shift read from some sheet row below the header. */
  lemma ReportedRowIsSheetRow(rt: Runtime, book: Workbook, freshId: nat -> string, i: int)
    requires 0 <= i < |ParseReport(rt, book, freshId).rows|
    ensures SelectWorksheet(book).Some? && HeaderRowOf(rt, SelectWorksheet(book).value).Some?
    ensures var ws := SelectWorksheet(book).value;
            var h := HeaderRowOf(rt, ws).value;
            exists row :: h < row <= LastRow(ws, h) && ReadShift(rt, ws, ColumnsOf(rt, ws, h), row).Some?
              && Carries(ParseReport(rt, book, freshId).rows[i], ReadShift(rt, ws, ColumnsOf(rt, ws, h), row).value)
  {
    var c := Collected(rt, book, freshId);
    var x := ParseReport(rt, book, freshId).rows[i];
    ReportedRowIsCollected(rt, book, freshId, i);
    CollectedBelowHeader(rt, book, freshId);
    var ws := SelectWorksheet(book).value;
    var h := HeaderRowOf(rt, ws).value;
    var k :| 0 <= k < |c| && c[k] == x.(sortOrder := 0);
    CollectedRowIsSheetRow(rt, ws, h, freshId, k);
    var row :| h < row <= LastRow(ws, h) && ReadShift(rt, ws, ColumnsOf(rt, ws, h), row).Some?
               && c[k] == NewRow(freshId(k), ReadShift(rt, ws, ColumnsOf(rt, ws, h), row).value);
    assert Carries(x, ReadShift(rt, ws, ColumnsOf(rt, ws, h), row).value);
  }

  /** Every returned row has a trimmed, non-blank name and times inside the report's window. */
  lemma ParseReportWithinWindow(rt: Runtime, book: Workbook, freshId: nat -> string)
    ensures forall i :: 0 <= i < |ParseReport(rt, book, freshId).rows| ==> WithinReportWindow(ParseReport(rt, book, freshId).rows[i])
  {
    var rows := ParseReport(rt, book, freshId).rows;
    CollectedWithinWindow(rt, book, freshId);
    forall i | 0 <= i < |rows| ensures WithinReportWindow(rows[i]) {
      ReportedRowIsCollected(rt, book, freshId, i);
    }
  }

  /** No data row of the selected sheet has an end cell that is a duration of 18 hours or more below zero. */
  predicate NoFarNegativeEnds(rt: Runtime, book: Workbook) {
    match SelectWorksheet(book)
    case None => true
    case Some(ws) =>
      match HeaderRowOf(rt, ws)
      case None => true
      case Some(h) => forall row :: h + 1 <= row <= LastRow(ws, h) ==> EndIsNotFarNegative(rt, ws, ColumnsOf(rt, ws, h), row)
  }

  /** The rows below a header all end after they start when no end cell among them is far negative. */
  lemma RowsBelowHeaderEndAfterStart(rt: Runtime, ws: Worksheet, h: int, freshId: nat -> string)
    requires forall row :: h + 1 <= row <= LastRow(ws, h) ==> EndIsNotFarNegative(rt, ws, ColumnsOf(rt, ws, h), row)
    ensures forall r :: r in RowsBelowHeader(rt, ws, h, freshId) ==> r.startAbsMin < r.endAbsMin
  {
    CollectedRowsEndAfterStart(rt, ws, ColumnsOf(rt, ws, h), freshId, h + 1, LastRow(ws, h) + 1);
  }

  /** Unless some end cell is far negative, every returned shift ends after it starts. */
  lemma ParseReportEndsAfterStarts(rt: Runtime, book: Workbook, freshId: nat -> string)
    requires NoFarNegativeEnds(rt, book)
    ensures forall i :: 0 <= i < |ParseReport(rt, book, freshId).rows| ==>
              ParseReport(rt, book, freshId).rows[i].startAbsMin < ParseReport(rt, book, freshId).rows[i].endAbsMin
  {
    var rows := ParseReport(rt, book, freshId).rows;
    if rows != [] {
      var ws := SelectWorksheet(book).value;
      var h := HeaderRowOf(rt, ws).value;
      RowsBelowHeaderEndAfterStart(rt, ws, h, freshId);
      assert Collected(rt, book, freshId) == RowsBelowHeader(rt, ws, h, freshId);
      forall i | 0 <= i < |rows| ensures rows[i].startAbsMin < rows[i].endAbsMin {
        ReportedRowIsCollected(rt, book, freshId, i);
      }
    }
  }

  /**
   * The exception: a start of 05:59 and an end cell holding the duration
   * -23:59 give a shift that ends (day 1, 00:01) before it starts (day 1, 05:59).
   */
  lemma FarNegativeEndPrecedesStart(rt: Runtime)
    ensures ParseTimeToMinutes(rt, TimeSpanValue(-1439)) == Some(-1439)
    ensures ShiftOf("Staff", 359, -1439) == Shift("Staff", 1799, 1441)
  {
  }

  /**
   * A start cell holding a duration far below zero: -21:40 lands at 02:20 on the
   * window's first day (140), and an end of 03:20 then lands at 1640, more than a
   * day after the start.
   */
  lemma FarNegativeStartEndsLater(rt: Runtime)
    ensures ParseTimeToMinutes(rt, TimeSpanValue(-1300)) == Some(-1300)
    ensures ShiftOf("Staff", -1300, 200) == Shift("Staff", 140, 1640)
  {
  }
}

/**
 * `BreaklistController`: the web actions that import a shift report into the
 * persisted schedule and edit it. Each action works on the state the store has
 * just loaded and leaves it as the store then saves it; the HTTP result is an
 * `Outcome`.
 */
module BreaklistController {

  import opened Common
  import opened DotNet
  import opened StableSort
  import opened TimeWindow
  import opened Models
  import opened Spreadsheet
  import opened Platform
  import ShiftReportParser

  const ChooseFileError := "Please choose a file."
  const NoStaffError := "No valid staff found in the file."
  const NewRowName := "New Staff"
  const NewRowMinutes := 8 * 60
  const MaxCellLength := 6

  /** The HTTP result of an action. */
  datatype Outcome =
    | RedirectToUpload(error: Option<string>)
    | RedirectToView
    | ShowSchedule
    | Ok
    | NotFound
    /** `ToDictionary` met two rows with one id and threw; nothing is saved. */
    | DuplicateKeyError

  // ---------------------------------------------------------------- times

  /**
   * `TryParseHHmm`: blank text is no time; otherwise the current culture's
   * `TimeSpan.TryParse`, its whole minutes reduced with C#'s `%`.
   */
  function TryParseHHmm(rt: Runtime, s: string): (r: Option<int>)
    ensures r.Some? <==> !IsBlank(s) && rt.parseTimeSpan(s).Some?
    ensures r.Some? ==> r.value == CsRem(rt.parseTimeSpan(s).value, MinutesPerDay)
    ensures r.Some? ==> -MinutesPerDay < r.value < MinutesPerDay
    ensures r.Some? ==> r.value % MinutesPerDay == rt.parseTimeSpan(s).value % MinutesPerDay
    ensures r.Some? && rt.parseTimeSpan(s).value >= 0 ==> r.value >= 0
  {
    if IsBlank(s) then None
    else
      match rt.parseTimeSpan(s)
      case None => None
      case Some(m) =>
        CsRemWrapsToEuclidean(m, MinutesPerDay);
        Some(CsRem(m, MinutesPerDay))
  }

  /** The culture's `TimeSpan.TryParse` reads every `HH:MM` text as the minutes it denotes. */
  ghost predicate ReadsClockText(rt: Runtime) {
    forall s :: IsClockText(s) ==> rt.parseTimeSpan(s) == Some(ClockTextMinutes(s))
  }

  /** What `ToHHmm` shows, `TryParseHHmm` reads back as the same minute of the day. */
  lemma ToHHmmParsesBack(rt: Runtime, minutes: int)
    requires ReadsClockText(rt)
    ensures TryParseHHmm(rt, ToHHmm(minutes)) == Some(minutes % MinutesPerDay)
  {
    var s := ToHHmm(minutes);
    assert !IsWhiteSpace(s[0]);
    assert rt.parseTimeSpan(s) == Some(minutes % MinutesPerDay);
  }

  /**
   * The round trip of the row editor's time fields: for an absolute minute on
   * the window's first day, the `HH:MM` text it is shown as parses and
   * normalises back to that same minute.
   */
  lemma ClockTextRoundTrip(rt: Runtime, abs: int, dayStart: int)
    requires ReadsClockText(rt)
    requires 0 <= dayStart < MinutesPerDay
    requires dayStart <= abs < dayStart + MinutesPerDay
    ensures TryParseHHmm(rt, ToHHmm(abs)).Some?
    ensures NormalizeToWindow(TryParseHHmm(rt, ToHHmm(abs)).value, dayStart) == abs
  {
    ToHHmmParsesBack(rt, abs);
    NormalizeToWindowRecovers(abs, dayStart);
  }

  // ---------------------------------------------------------------- rows

  /** `FirstOrDefault(r => r.Id == id)`, as a position. */
  function FirstWithId(rows: seq<Row>, id: string): (i: Option<nat>)
    ensures i.Some? ==> i.value < |rows| && rows[i.value].id == id
    ensures i.Some? ==> forall j :: 0 <= j < i.value ==> rows[j].id != id
    ensures i.None? ==> forall j :: 0 <= j < |rows| ==> rows[j].id != id
  {
    if rows == [] then None
    else if rows[0].id == id then Some(0)
    else
      match FirstWithId(rows[1..], id)
      case None => None
      case Some(k) => Some(k + 1)
  }

  /** `rows.Max(r => r.SortOrder)`. */
  function MaxSortOrder(rows: seq<Row>): (m: int)
    requires rows != []
    ensures exists i :: 0 <= i < |rows| && rows[i].sortOrder == m
    ensures forall i :: 0 <= i < |rows| ==> rows[i].sortOrder <= m
  {
    if |rows| == 1 then rows[0].sortOrder
    else
      var rest := MaxSortOrder(rows[1..]);
      assert forall i :: 1 <= i < |rows| ==> rows[i] == rows[1..][i - 1];
      if rows[0].sortOrder >= rest then rows[0].sortOrder else rest
  }

  /** The `SortOrder` the next added row takes: one past the largest, or 0 for an empty schedule. */
  function NextSortOrder(rows: seq<Row>): (next: int)
    ensures forall i :: 0 <= i < |rows| ==> rows[i].sortOrder < next
    ensures rows == [] ==> next == 0
    ensures rows != [] ==> exists i :: 0 <= i < |rows| && rows[i].sortOrder == next - 1
  {
    if rows == [] then 0 else MaxSortOrder(rows) + 1
  }

  /** The rows with `SortOrder` counting up from `first`, in the given order. */
  function NumberedFrom(rows: seq<Row>, first: int): (numbered: seq<Row>)
    ensures |numbered| == |rows|
    ensures forall i :: 0 <= i < |rows| ==> numbered[i] == rows[i].(sortOrder := first + i)
  {
    seq(|rows|, i requires 0 <= i < |rows| => rows[i].(sortOrder := first + i))
  }

  /** `rows` numbered on after `front` and put behind it. */
  function NumberedAfter(front: seq<Row>, rows: seq<Row>): seq<Row> {
    front + NumberedFrom(rows, |front|)
  }

  /** The front stays in place, and each following row k takes `SortOrder` k. */
  lemma NumberedAfterShape(front: seq<Row>, rows: seq<Row>)
    ensures |NumberedAfter(front, rows)| == |front| + |rows|
    ensures forall k :: 0 <= k < |front| ==> NumberedAfter(front, rows)[k] == front[k]
    ensures forall k :: |front| <= k < |front| + |rows| ==>
              NumberedAfter(front, rows)[k] == rows[k - |front|].(sortOrder := k)
  {
    var numbered := NumberedAfter(front, rows);
    forall k | |front| <= k < |front| + |rows|
      ensures numbered[k] == rows[k - |front|].(sortOrder := k)
    {
      assert numbered[k] == NumberedFrom(rows, |front|)[k - |front|];
    }
  }

  /** Numbering one more row behind `front` gives it the current count and leaves the others alone. */
  lemma NumberedAfterSnoc(front: seq<Row>, rows: seq<Row>, row: Row)
    ensures NumberedAfter(front, rows + [row]) ==
              NumberedAfter(front, rows) + [row.(sortOrder := |NumberedAfter(front, rows)|)]
  {
    var left := NumberedAfter(front, rows + [row]);
    var right := NumberedAfter(front, rows) + [row.(sortOrder := |front| + |rows|)];
    assert |left| == |right|;
    forall i | 0 <= i < |left|
      ensures left[i] == right[i]
    {
      if i < |front| {
      } else if i < |front| + |rows| {
        assert left[i] == NumberedFrom(rows + [row], |front|)[i - |front|];
      }
    }
  }

  /** The schedule after an upload: the existing rows, then the parsed rows numbered on from them. */
  function Merged(rows: seq<Row>, parsed: seq<Row>): (merged: seq<Row>)
    ensures |merged| == |rows| + |parsed|
    ensures merged[..|rows|] == rows
    ensures WithoutOrders(merged[|rows|..]) == WithoutOrders(parsed)
    ensures forall k :: 0 <= k < |parsed| ==> merged[|rows| + k] == parsed[k].(sortOrder := NextSortOrder(rows) + k)
  {
    var merged := rows + NumberedFrom(parsed, NextSortOrder(rows));
    assert merged[..|rows|] == rows;
    assert merged[|rows|..] == NumberedFrom(parsed, NextSortOrder(rows));
    merged
  }

  /**
   * An upload keeps every existing row as it was and puts the parsed rows after
   * them, in their order and under fresh `SortOrder` values, larger than every
   * existing one and increasing: one more than the largest existing order (0 for
   * an empty schedule), counting up by one.
   */
  lemma MergedAfterExisting(rows: seq<Row>, parsed: seq<Row>)
    ensures forall j :: |rows| <= j < |rows| + |parsed| ==>
              Merged(rows, parsed)[j].sortOrder == (if rows == [] then 0 else MaxSortOrder(rows) + 1) + (j - |rows|)
    ensures forall i, j :: 0 <= i < |rows| <= j < |rows| + |parsed| ==>
              Merged(rows, parsed)[i].sortOrder < Merged(rows, parsed)[j].sortOrder
    ensures forall i, j :: |rows| <= i < j < |rows| + |parsed| ==>
              Merged(rows, parsed)[i].sortOrder < Merged(rows, parsed)[j].sortOrder
  {
    var merged := Merged(rows, parsed);
    assert merged == rows + NumberedFrom(parsed, NextSortOrder(rows));
  }

  /** `RemoveAll(r => r.Id == id)`: the rows with another id, in order. */
  function WithoutId(rows: seq<Row>, id: string): (kept: seq<Row>)
    ensures |kept| <= |rows|
    ensures forall r :: r in kept <==> r in rows && r.id != id
  {
    if rows == [] then []
    else
      var rest := WithoutId(rows[1..], id);
      assert forall r :: r in rows <==> r == rows[0] || r in rows[1..];
      if rows[0].id == id then rest else [rows[0]] + rest
  }

  /** Filtering two runs of rows is filtering each: `RemoveAll` keeps the order of the rows it keeps. */
  lemma {:induction false} WithoutIdAppend(a: seq<Row>, b: seq<Row>, id: string)
    ensures WithoutId(a + b, id) == WithoutId(a, id) + WithoutId(b, id)
  {
    if a == [] {
      assert a + b == b;
    } else {
      assert (a + b)[1..] == a[1..] + b;
      WithoutIdAppend(a[1..], b, id);
    }
  }

  /** `RemoveAll` keeps every row with another id as often as it occurs, and no row with the id. */
  lemma {:induction false} WithoutIdCounts(rows: seq<Row>, id: string, r: Row)
    ensures multiset(WithoutId(rows, id))[r] == if r.id == id then 0 else multiset(rows)[r]
  {
    if rows != [] {
      WithoutIdCounts(rows[1..], id, r);
      assert rows == [rows[0]] + rows[1..];
    }
  }

  /**
   * The row as `UpdateRow` leaves it: the trimmed name; the start, if it parses,
   * normalised onto the window; the end, if it parses, normalised, moved past the
   * (possibly new) start and clamped to the window's end. A time that does not
   * parse is kept.
   */
  function EditedRow(rt: Runtime, row: Row, name: string, start: string, end: string, dayStart: int, windowMinutes: int): (edited: Row)
    ensures edited.id == row.id && edited.sortOrder == row.sortOrder
    ensures edited.name == Trim(name)
    ensures TryParseHHmm(rt, start).None? ==> edited.startAbsMin == row.startAbsMin
    ensures TryParseHHmm(rt, start).Some? && TryParseHHmm(rt, start).value > dayStart - MinutesPerDay ==>
              dayStart <= edited.startAbsMin
    ensures TryParseHHmm(rt, start).Some? && 0 <= dayStart ==> edited.startAbsMin < dayStart + MinutesPerDay
    ensures TryParseHHmm(rt, start).Some? ==>
              edited.startAbsMin % MinutesPerDay == TryParseHHmm(rt, start).value % MinutesPerDay
    ensures TryParseHHmm(rt, end).None? ==> edited.endAbsMin == row.endAbsMin
    ensures TryParseHHmm(rt, end).Some? ==> edited.endAbsMin <= dayStart + windowMinutes
    ensures TryParseHHmm(rt, end).Some? ==>
              edited.endAbsMin == dayStart + windowMinutes
              || edited.endAbsMin % MinutesPerDay == TryParseHHmm(rt, end).value % MinutesPerDay
    ensures (TryParseHHmm(rt, end).Some? && TryParseHHmm(rt, end).value > dayStart - MinutesPerDay
             && edited.startAbsMin < dayStart + windowMinutes && edited.startAbsMin < dayStart + MinutesPerDay)
            ==> edited.startAbsMin < edited.endAbsMin
    ensures TryParseHHmm(rt, end).Some? && 0 <= dayStart <= edited.startAbsMin ==>
              edited.endAbsMin <= edited.startAbsMin + MinutesPerDay
    ensures (TryParseHHmm(rt, end).Some? && TryParseHHmm(rt, end).value > dayStart - MinutesPerDay
             && 0 <= dayStart <= edited.startAbsMin < dayStart + MinutesPerDay)
            ==> edited.endAbsMin == ClampToWindow(NextClockTime(edited.startAbsMin, TryParseHHmm(rt, end).value), dayStart + windowMinutes)
  {
    var parsedStart, parsedEnd := TryParseHHmm(rt, start), TryParseHHmm(rt, end);
    var startAbs := if parsedStart.None? then row.startAbsMin else NormalizeToWindow(parsedStart.value, dayStart);
    assert parsedStart.Some? ==> startAbs % MinutesPerDay == parsedStart.value % MinutesPerDay by {
      if parsedStart.Some? {
        ShiftByDays(parsedStart.value, 1);
      }
    }
    var endAbs := if parsedEnd.None? then row.endAbsMin else WindowedEnd(startAbs, parsedEnd.value, dayStart, dayStart + windowMinutes);
    row.(name := Trim(name), startAbsMin := startAbs, endAbsMin := endAbs)
  }

  /**
   * Saving a row with the name and the `HH:MM` times the schedule shows for it
   * changes nothing, for any row that lies on the window as the editor keeps it.
   */
  lemma {:induction false} ResubmittedRowUnchanged(rt: Runtime, row: Row, dayStart: int, windowMinutes: int)
    requires ReadsClockText(rt)
    requires 0 <= dayStart < MinutesPerDay
    requires IsTrimmed(row.name)
    requires dayStart <= row.startAbsMin < dayStart + MinutesPerDay
    requires row.startAbsMin < row.endAbsMin < row.startAbsMin + MinutesPerDay
    requires row.endAbsMin <= dayStart + windowMinutes
    ensures EditedRow(rt, row, row.name, ToHHmm(row.startAbsMin), ToHHmm(row.endAbsMin), dayStart, windowMinutes) == row
  {
    var start, end := row.startAbsMin, row.endAbsMin;
    TrimTrimmed(row.name);
    ToHHmmParsesBack(rt, start);
    ToHHmmParsesBack(rt, end);
    NormalizeToWindowRecovers(start, dayStart);
    var e := NormalizeToWindow(end % MinutesPerDay, dayStart);
    if end < dayStart + MinutesPerDay {
      NormalizeToWindowRecovers(end, dayStart);
    } else {
      NormalizeToWindowRecovers(end - MinutesPerDay, dayStart);
      ShiftByDays(end - MinutesPerDay, 1);
      assert e == end - MinutesPerDay;
    }
  }

  /**
   * What `DeleteRow` leaves of the rows: none with the deleted id, the others
   * each once up to `SortOrder`, renumbered `0 .. n - 1` in the order of their
   * previous `SortOrder`.
   */
  lemma DeleteRowRenumbers(rows: seq<Row>, id: string)
    ensures forall i :: 0 <= i < |Numbered(SortBy(WithoutId(rows, id), BySortOrder))| ==>
              Numbered(SortBy(WithoutId(rows, id), BySortOrder))[i].id != id
    ensures forall i :: 0 <= i < |Numbered(SortBy(WithoutId(rows, id), BySortOrder))| ==>
              Numbered(SortBy(WithoutId(rows, id), BySortOrder))[i].sortOrder == i
    ensures multiset(WithoutOrders(Numbered(SortBy(WithoutId(rows, id), BySortOrder))))
         == multiset(WithoutOrders(WithoutId(rows, id)))
  {
    var kept := WithoutId(rows, id);
    var result := Numbered(SortBy(kept, BySortOrder));
    SortBySortOrderAndNumber(kept);
    forall i | 0 <= i < |result| ensures result[i].id != id {
      var cleared := result[i].(sortOrder := 0);
      assert cleared == WithoutOrders(result)[i];
      assert cleared in multiset(WithoutOrders(kept));
      var j :| 0 <= j < |kept| && WithoutOrders(kept)[j] == cleared;
      assert kept[j] in kept;
    }
  }

  // ---------------------------------------------------------------- cells

  /** The key of a cell note: the row id, a colon and the slot number. */
  function CellKey(rowId: string, slot: int): (key: string)
    ensures StartsWith(key, rowId + ":")
    ensures |key| > |rowId| + 1
  {
    rowId + ":" + IntToString(slot)
  }

  /** A cell key names its row and slot, for row ids without a colon (such as GUIDs in "N" format). */
  lemma CellKeyInjective(a: string, s: int, b: string, t: int)
    requires ':' !in a && ':' !in b
    requires CellKey(a, s) == CellKey(b, t)
    ensures a == b && s == t
  {
    var k := CellKey(a, s);
    assert k[|a|] == ':' && k[|b|] == ':';
    assert forall i :: 0 <= i < |a| ==> k[i] == a[i];
    assert forall i :: 0 <= i < |b| ==> k[i] == b[i];
    assert a == k[..|a|] == b;
    assert IntToString(s) == k[|a| + 1..] == IntToString(t);
    IntToStringInjective(s, t);
  }

  /** The keys that `DeleteRow(rowId)` clears are exactly the cell keys of that row. */
  lemma CellKeyPrefix(rowId: string, other: string, slot: int)
    requires ':' !in rowId && ':' !in other
    ensures StartsWith(CellKey(other, slot), rowId + ":") <==> other == rowId
  {
    var k, p := CellKey(other, slot), rowId + ":";
    assert k[|other|] == ':' && p[|rowId|] == ':';
    assert forall i :: 0 <= i < |other| ==> k[i] == other[i];
    assert forall i :: 0 <= i < |rowId| ==> p[i] == rowId[i];
    if StartsWith(k, p) {
      assert forall i :: 0 <= i < |p| ==> k[i] == p[i];
    }
    if other == rowId {
      assert k[..|p|] == p;
    }
  }

  /**
   * What `UpdateCell` stores for a typed value: nothing for blank text, else the
   * trimmed text cut to its first six characters.
   */
  function CellEntry(value: string): (entry: Option<string>)
    ensures entry.None? <==> IsBlank(value)
    ensures entry.Some? ==> 1 <= |entry.value| <= MaxCellLength
    ensures entry.Some? ==> entry.value <= Trim(value) && !IsWhiteSpace(entry.value[0])
    ensures entry.Some? && |Trim(value)| <= MaxCellLength ==> entry.value == Trim(value)
    ensures |Trim(value)| > MaxCellLength ==> entry == Some(Trim(value)[..MaxCellLength])
  {
    var v := Trim(value);
    if v == [] then None
    else if |v| > MaxCellLength then Some(v[..MaxCellLength])
    else Some(v)
  }

  /** The cells keep only entries `UpdateCell` can write: non-blank at the start and at most six characters. */
  predicate CellsWellFormed(cells: map<string, string>) {
    forall k :: k in cells ==> 1 <= |cells[k]| <= MaxCellLength && !IsWhiteSpace(cells[k][0])
  }

  /** The cells with the entry for `key` set as `CellEntry` says. */
  function WithCell(cells: map<string, string>, key: string, value: string): (updated: map<string, string>)
    ensures key in updated <==> !IsBlank(value)
    ensures key in updated ==> updated[key] == CellEntry(value).value
    ensures forall k :: k != key ==> (k in updated <==> k in cells)
    ensures forall k :: k != key && k in cells ==> updated[k] == cells[k]
  {
    match CellEntry(value)
    case None => cells - {key}
    case Some(v) => cells[key := v]
  }

  /** Writing a cell keeps the cells well formed. */
  lemma WithCellPreserves(cells: map<string, string>, key: string, value: string)
    requires CellsWellFormed(cells)
    ensures CellsWellFormed(WithCell(cells, key, value))
  {
    var updated := WithCell(cells, key, value);
    match CellEntry(value)
    case None =>
      assert updated == cells - {key};
    case Some(v) =>
      assert updated == cells[key := v];
      assert 1 <= |v| <= MaxCellLength && !IsWhiteSpace(v[0]);
  }

  /** The cells left once every key beginning with `prefix` is removed. */
  function WithoutPrefix(cells: map<string, string>, prefix: string): (kept: map<string, string>)
    ensures forall k :: k in kept <==> k in cells && !StartsWith(k, prefix)
    ensures forall k :: k in kept ==> kept[k] == cells[k]
  {
    map k | k in cells && !StartsWith(k, prefix) :: cells[k]
  }

  // ---------------------------------------------------------------- reordering

  /** Some two rows share an id, which makes `ToDictionary(r => r.Id)` throw. */
  predicate HasDuplicateIds(rows: seq<Row>) {
    exists i, j :: 0 <= i < j < |rows| && rows[i].id == rows[j].id
  }

  /** The position of the last occurrence of `x` in `ids`, or -1. */
  function LastIndexOf(ids: seq<string>, x: string): (i: int)
    ensures -1 <= i < |ids|
    ensures i >= 0 ==> ids[i] == x && forall j :: i < j < |ids| ==> ids[j] != x
    ensures i == -1 <==> x !in ids
  {
    if ids == [] then -1
    else if ids[|ids| - 1] == x then |ids| - 1
    else
      assert forall y :: y in ids <==> y in ids[..|ids| - 1] || y == ids[|ids| - 1];
      LastIndexOf(ids[..|ids| - 1], x)
  }

  /** The entries of `ids` that name a row, in list order, repeats included. */
  function ListedIds(rows: seq<Row>, ids: seq<string>): (listed: seq<string>)
    ensures |listed| <= |ids|
    ensures forall k :: 0 <= k < |listed| ==> listed[k] in ids && FirstWithId(rows, listed[k]).Some?
  {
    if ids == [] then []
    else
      var last := ids[|ids| - 1];
      var prefix := ListedIds(rows, ids[..|ids| - 1]);
      assert forall y :: y in ids[..|ids| - 1] ==> y in ids;
      if FirstWithId(rows, last).Some? then prefix + [last] else prefix
  }

  /**
   * The first loop of `Reorder`: the listed rows in list order, each with the
   * position of its LAST mention. A row listed twice is one object added twice,
   * so the later `SortOrder` assignment shows in both copies.
   */
  function Front(rows: seq<Row>, ids: seq<string>): (front: seq<Row>)
    ensures |front| == |ListedIds(rows, ids)|
    ensures forall k :: 0 <= k < |front| ==> front[k].id == ListedIds(rows, ids)[k]
    ensures forall k :: 0 <= k < |front| ==> front[k].sortOrder == LastIndexOf(ids, ListedIds(rows, ids)[k])
  {
    var listed := ListedIds(rows, ids);
    seq(|listed|, k requires 0 <= k < |listed| =>
      rows[FirstWithId(rows, listed[k]).value].(sortOrder := LastIndexOf(ids, listed[k])))
  }

  /** The rows whose id is not in the list, in their order. */
  function Unlisted(rows: seq<Row>, ids: seq<string>): (rest: seq<Row>)
    ensures |rest| <= |rows|
    ensures forall r :: r in rest <==> r in rows && r.id !in ids
  {
    if rows == [] then []
    else
      var last := rows[|rows| - 1];
      assert forall r :: r in rows <==> r in rows[..|rows| - 1] || r == last;
      Unlisted(rows[..|rows| - 1], ids) + (if last.id in ids then [] else [last])
  }

  /** The rows as `Reorder` leaves them: the listed rows first, then the others numbered on from there. */
  function Reordered(rows: seq<Row>, ids: seq<string>): (reordered: seq<Row>)
    ensures |reordered| == |Front(rows, ids)| + |Unlisted(rows, ids)|
    ensures forall k :: 0 <= k < |Front(rows, ids)| ==> reordered[k] == Front(rows, ids)[k]
    ensures forall k :: |Front(rows, ids)| <= k < |reordered| ==>
              reordered[k] == Unlisted(rows, ids)[k - |Front(rows, ids)|].(sortOrder := k)
  {
    NumberedAfterShape(Front(rows, ids), Unlisted(rows, ids));
    NumberedAfter(Front(rows, ids), Unlisted(rows, ids))
  }

  /** Every copy of the row with id `id` gets `SortOrder` `order`. */
  function Restamped(rows: seq<Row>, id: string, order: int): (stamped: seq<Row>)
    ensures |stamped| == |rows|
    ensures forall k :: 0 <= k < |rows| ==>
              stamped[k] == if rows[k].id == id then rows[k].(sortOrder := order) else rows[k]
  {
    seq(|rows|, k requires 0 <= k < |rows| => if rows[k].id == id then rows[k].(sortOrder := order) else rows[k])
  }

  /** The two loops of `Reorder`, over rows whose ids are distinct. */
  method ReorderRows(rows: seq<Row>, ids: seq<string>) returns (newRows: seq<Row>)
    requires !HasDuplicateIds(rows)
    ensures newRows == Reordered(rows, ids)
  {
    var front := ListedRows(rows, ids);
    newRows := AppendUnlisted(rows, ids, front);
  }

  /** The first loop of `Reorder`: the rows the list names, looked up by id and stamped with their position. */
  method ListedRows(rows: seq<Row>, ids: seq<string>) returns (newRows: seq<Row>)
    requires !HasDuplicateIds(rows)
    ensures newRows == Front(rows, ids)
  {
    newRows := [];
    var i := 0;
    while i < |ids|
      invariant 0 <= i <= |ids|
      invariant newRows == Front(rows, ids[..i])
    {
      var found := FirstWithId(rows, ids[i]);
      if found.Some? {
        newRows := Restamped(newRows, ids[i], i) + [rows[found.value].(sortOrder := i)];
      }
      FrontStep(rows, ids, i);
      i := i + 1;
    }
    assert ids[..i] == ids;
  }

  /** The second loop of `Reorder`: each unlisted row, in order, takes the current count as its `SortOrder`. */
  method AppendUnlisted(rows: seq<Row>, ids: seq<string>, front: seq<Row>) returns (newRows: seq<Row>)
    ensures newRows == front + NumberedFrom(Unlisted(rows, ids), |front|)
  {
    newRows := front;
    var j := 0;
    while j < |rows|
      invariant 0 <= j <= |rows|
      invariant newRows == NumberedAfter(front, Unlisted(rows[..j], ids))
    {
      AppendUnlistedStep(rows, ids, front, j, newRows);
      if rows[j].id !in ids {
        newRows := newRows + [rows[j].(sortOrder := |newRows|)];
      }
      j := j + 1;
    }
    assert rows[..j] == rows;
  }

  /** One pass of the second loop of `Reorder` keeps its invariant. */
  lemma AppendUnlistedStep(rows: seq<Row>, ids: seq<string>, front: seq<Row>, j: int, newRows: seq<Row>)
    requires 0 <= j < |rows| && newRows == NumberedAfter(front, Unlisted(rows[..j], ids))
    ensures rows[j].id in ids ==> newRows == NumberedAfter(front, Unlisted(rows[..j + 1], ids))
    ensures rows[j].id !in ids ==>
              newRows + [rows[j].(sortOrder := |newRows|)] == NumberedAfter(front, Unlisted(rows[..j + 1], ids))
  {
    UnlistedStep(rows, ids, j);
    NumberedAfterSnoc(front, Unlisted(rows[..j], ids), rows[j]);
  }

  /** One step of the second loop of `Reorder`. */
  lemma UnlistedStep(rows: seq<Row>, ids: seq<string>, j: int)
    requires 0 <= j < |rows|
    ensures Unlisted(rows[..j + 1], ids) ==
              Unlisted(rows[..j], ids) + (if rows[j].id in ids then [] else [rows[j]])
  {
    assert rows[..j + 1][..j] == rows[..j];
  }

  /** One step of the first loop of `Reorder`. */
  lemma FrontStep(rows: seq<Row>, ids: seq<string>, i: int)
    requires 0 <= i < |ids|
    ensures Front(rows, ids[..i + 1]) ==
              if FirstWithId(rows, ids[i]).Some?
              then Restamped(Front(rows, ids[..i]), ids[i], i) + [rows[FirstWithId(rows, ids[i]).value].(sortOrder := i)]
              else Front(rows, ids[..i])
  {
    var before, after := ids[..i], ids[..i + 1];
    assert after[..i] == before;
    forall x ensures LastIndexOf(after, x) == if x == ids[i] then i else LastIndexOf(before, x) {
    }
  }

  /** No id occurs twice in the list. */
  predicate DistinctIds(ids: seq<string>) {
    forall a, b :: 0 <= a < b < |ids| ==> ids[a] != ids[b]
  }

  /** When every entry names a row, every entry is listed. */
  lemma {:induction false} ListedIdsAll(rows: seq<Row>, ids: seq<string>)
    requires forall k :: 0 <= k < |ids| ==> FirstWithId(rows, ids[k]).Some?
    ensures ListedIds(rows, ids) == ids
  {
    if ids != [] {
      ListedIdsAll(rows, ids[..|ids| - 1]);
      assert ids[..|ids| - 1] + [ids[|ids| - 1]] == ids;
    }
  }

  /** An entry that names a row is listed. */
  lemma {:induction false} ListedIdsComplete(rows: seq<Row>, ids: seq<string>, x: string)
    requires x in ids && FirstWithId(rows, x).Some?
    ensures x in ListedIds(rows, ids)
  {
    var last := ids[|ids| - 1];
    if x != last {
      assert x in ids[..|ids| - 1] by {
        var k :| 0 <= k < |ids| && ids[k] == x;
        assert k < |ids| - 1;
        assert ids[..|ids| - 1][k] == x;
      }
      ListedIdsComplete(rows, ids[..|ids| - 1], x);
    }
  }

  /**
   * A list that names every row it mentions once gives each of them its
   * position: the k-th row after a `Reorder` has `SortOrder` k, and the first
   * rows carry the listed ids in list order.
   */
  lemma ReorderedPositions(rows: seq<Row>, ids: seq<string>)
    requires DistinctIds(ids)
    requires forall k :: 0 <= k < |ids| ==> FirstWithId(rows, ids[k]).Some?
    ensures |ids| <= |Reordered(rows, ids)|
    ensures forall k :: 0 <= k < |ids| ==> Reordered(rows, ids)[k].id == ids[k]
    ensures forall k :: 0 <= k < |Reordered(rows, ids)| ==> Reordered(rows, ids)[k].sortOrder == k
  {
    ListedIdsAll(rows, ids);
    var front := Front(rows, ids);
    forall k | 0 <= k < |front| ensures front[k].sortOrder == k {
      assert LastIndexOf(ids, ids[k]) == k;
    }
  }

  /** Row ids are distinct exactly when looking up each row's id finds that very row. */
  lemma DistinctIdsIffLookupFinds(rows: seq<Row>)
    ensures !HasDuplicateIds(rows) <==> forall i :: 0 <= i < |rows| ==> FirstWithId(rows, rows[i].id) == Some(i)
  {
    if !HasDuplicateIds(rows) {
      forall i | 0 <= i < |rows| ensures FirstWithId(rows, rows[i].id) == Some(i) {
        FirstWithIdFinds(rows, i);
      }
    } else {
      var i, j :| 0 <= i < j < |rows| && rows[i].id == rows[j].id;
      assert FirstWithId(rows, rows[j].id) != Some(j);
    }
  }

  /** Among rows with distinct ids, looking a row's id up finds that row. */
  lemma FirstWithIdFinds(rows: seq<Row>, i: int)
    requires !HasDuplicateIds(rows) && 0 <= i < |rows|
    ensures FirstWithId(rows, rows[i].id) == Some(i)
  {
    var found := FirstWithId(rows, rows[i].id);
    assert found.Some?;
    assert found.value <= i;
    assert rows[found.value].id == rows[i].id;
  }

  /** For rows with distinct ids, `Reorder` loses no row: each comes out with only its `SortOrder` changed. */
  lemma ReorderedKeepsEveryRow(rows: seq<Row>, ids: seq<string>)
    requires !HasDuplicateIds(rows)
    ensures forall i :: 0 <= i < |rows| ==> rows[i].(sortOrder := 0) in WithoutOrders(Reordered(rows, ids))
  {
    var front, rest := Front(rows, ids), Unlisted(rows, ids);
    var cleared := WithoutOrders(Reordered(rows, ids));
    forall i | 0 <= i < |rows| ensures rows[i].(sortOrder := 0) in cleared {
      var r := rows[i];
      FirstWithIdFinds(rows, i);
      if r.id in ids {
        ListedIdsComplete(rows, ids, r.id);
        var k :| 0 <= k < |ListedIds(rows, ids)| && ListedIds(rows, ids)[k] == r.id;
        assert cleared[k] == r.(sortOrder := 0);
      } else {
        assert r in rest;
        var j :| 0 <= j < |rest| && rest[j] == r;
        assert cleared[|front| + j] == r.(sortOrder := 0);
      }
    }
  }

  /** `Reorder` invents no row: every row that comes out was in the schedule, up to `SortOrder`. */
  lemma ReorderedInventsNoRow(rows: seq<Row>, ids: seq<string>)
    ensures forall k :: 0 <= k < |Reordered(rows, ids)| ==> Reordered(rows, ids)[k].(sortOrder := 0) in WithoutOrders(rows)
  {
    var front, rest := Front(rows, ids), Unlisted(rows, ids);
    var reordered, clearedRows := Reordered(rows, ids), WithoutOrders(rows);
    forall k | 0 <= k < |reordered| ensures reordered[k].(sortOrder := 0) in clearedRows {
      if k < |front| {
        var i := FirstWithId(rows, ListedIds(rows, ids)[k]).value;
        assert reordered[k].(sortOrder := 0) == clearedRows[i];
      } else {
        var r := rest[k - |front|];
        assert r in rows;
        var i :| 0 <= i < |rows| && rows[i] == r;
        assert reordered[k].(sortOrder := 0) == clearedRows[i];
      }
    }
  }

  /** Among rows with distinct ids, an id is found exactly when it is found before the last row or is the last row's. */
  lemma FirstWithIdDropLast(rows: seq<Row>, x: string)
    requires rows != [] && !HasDuplicateIds(rows)
    ensures FirstWithId(rows[..|rows| - 1], rows[|rows| - 1].id).None?
    ensures FirstWithId(rows, x).Some? <==> FirstWithId(rows[..|rows| - 1], x).Some? || x == rows[|rows| - 1].id
  {
    var shorter := rows[..|rows| - 1];
    if FirstWithId(shorter, x).Some? {
      assert rows[FirstWithId(shorter, x).value].id == x;
    }
    if FirstWithId(rows, x).Some? && x != rows[|rows| - 1].id {
      assert shorter[FirstWithId(rows, x).value].id == x;
    }
  }

  /** Dropping the last of a set of rows with distinct ids unlists its id, and only that. */
  lemma {:induction false} ListedIdsDropLast(rows: seq<Row>, ids: seq<string>)
    requires rows != [] && !HasDuplicateIds(rows) && DistinctIds(ids)
    ensures |ListedIds(rows, ids)| == |ListedIds(rows[..|rows| - 1], ids)| + if rows[|rows| - 1].id in ids then 1 else 0
  {
    var last := rows[|rows| - 1];
    if ids != [] {
      var x, prefix := ids[|ids| - 1], ids[..|ids| - 1];
      assert DistinctIds(prefix);
      ListedIdsDropLast(rows, prefix);
      FirstWithIdDropLast(rows, x);
      assert last.id in ids <==> last.id in prefix || x == last.id;
      assert x == last.id ==> last.id !in prefix;
    }
  }

  /** With no rows, no listed id is found. */
  lemma {:induction false} ListedIdsOfNoRows(ids: seq<string>)
    ensures ListedIds([], ids) == []
  {
    if ids != [] {
      ListedIdsOfNoRows(ids[..|ids| - 1]);
    }
  }

  /** For distinct row ids and a list without repeats, the listed and the unlisted rows add up to all rows. */
  lemma {:induction false} ListedAndUnlistedCount(rows: seq<Row>, ids: seq<string>)
    requires !HasDuplicateIds(rows) && DistinctIds(ids)
    ensures |ListedIds(rows, ids)| + |Unlisted(rows, ids)| == |rows|
  {
    if rows == [] {
      ListedIdsOfNoRows(ids);
    } else {
      ListedIdsDropLast(rows, ids);
      ListedAndUnlistedCount(rows[..|rows| - 1], ids);
    }
  }

  /** With distinct row ids and a list without repeats, `Reorder` keeps the number of rows. */
  lemma ReorderedKeepsCount(rows: seq<Row>, ids: seq<string>)
    requires !HasDuplicateIds(rows) && DistinctIds(ids)
    ensures |Reordered(rows, ids)| == |rows|
  {
    ListedAndUnlistedCount(rows, ids);
  }

  // ---------------------------------------------------------------- actions

  /**
   * `Upload` (POST): no file, or an empty one, is refused; a parser error is
   * shown on the upload page; otherwise the parsed rows are appended after the
   * existing ones, numbered on from the largest `SortOrder`.
   */
  method Upload(state: BreaklistState, rt: Runtime, file: Option<Workbook>, freshId: nat -> string) returns (outcome: Outcome)
    modifies state
    ensures file.None? ==> outcome == RedirectToUpload(Some(ChooseFileError)) && unchanged(state)
    ensures file.Some? && ShiftReportParser.ParseReport(rt, file.value, freshId).error.Some? ==>
              outcome == RedirectToUpload(ShiftReportParser.ParseReport(rt, file.value, freshId).error) && unchanged(state)
    ensures file.Some? && ShiftReportParser.ParseReport(rt, file.value, freshId).error.None? ==>
              && outcome == RedirectToView
              && state.rows == Merged(old(state.rows), ShiftReportParser.ParseReport(rt, file.value, freshId).rows)
              && unchanged(state`cells, state`dayStartMin, state`windowMinutes, state`slotStepMin, state`sourceFileName)
  {
    if file.None? {
      return RedirectToUpload(Some(ChooseFileError));
    }
    var parsed, error := ShiftReportParser.Parse(rt, file.value, freshId);
    if error.Some? {
      return RedirectToUpload(error);
    }
    if parsed == [] {
      return RedirectToUpload(Some(NoStaffError));
    }

    AppendParsed(state, parsed);
    return RedirectToView;
  }

  /** The merge loop of `Upload`: each parsed row takes the next `SortOrder` and is appended. */
  method AppendParsed(state: BreaklistState, parsed: seq<Row>)
    modifies state
    ensures state.rows == Merged(old(state.rows), parsed)
    ensures unchanged(state`cells, state`dayStartMin, state`windowMinutes, state`slotStepMin, state`sourceFileName)
  {
    var nextOrder := NextSortOrder(state.rows);
    ghost var first := nextOrder;
    var i := 0;
    while i < |parsed|
      invariant 0 <= i <= |parsed|
      invariant nextOrder == first + i
      invariant state.rows == old(state.rows) + NumberedFrom(parsed[..i], first)
      invariant unchanged(state`cells, state`dayStartMin, state`windowMinutes, state`slotStepMin, state`sourceFileName)
    {
      assert NumberedFrom(parsed[..i + 1], first) == NumberedFrom(parsed[..i], first) + [parsed[i].(sortOrder := nextOrder)];
      state.rows := state.rows + [parsed[i].(sortOrder := nextOrder)];
      nextOrder := nextOrder + 1;
      i := i + 1;
    }
    assert parsed[..i] == parsed;
  }

  /** `ClearAll`: the store is reset to a brand-new state. */
  method ClearAll() returns (state: BreaklistState, outcome: Outcome)
    ensures fresh(state) && state.IsNew()
    ensures outcome == RedirectToUpload(None)
  {
    state := new BreaklistState();
    outcome := RedirectToUpload(None);
  }

  /** `SortByStartTime`: rows ordered by start time, then by name, and renumbered. */
  method SortByStartTime(state: BreaklistState, rt: Runtime) returns (outcome: Outcome)
    modifies state
    ensures state.rows == Numbered(SortBy(old(state.rows), ByStartThenName(rt.nameLe)))
    ensures unchanged(state`cells, state`dayStartMin, state`windowMinutes, state`slotStepMin, state`sourceFileName)
    ensures outcome == RedirectToView
  {
    state.rows := AssignSortOrders(SortBy(state.rows, ByStartThenName(rt.nameLe)));
    outcome := RedirectToView;
  }

  /** `ViewBreaklist`: an empty schedule sends the user to the upload page; otherwise rows are put in `SortOrder` order. */
  method ViewBreaklist(state: BreaklistState) returns (outcome: Outcome)
    modifies state
    ensures old(state.rows) == [] ==> outcome == RedirectToUpload(None) && unchanged(state)
    ensures old(state.rows) != [] ==> outcome == ShowSchedule && state.rows == SortBy(old(state.rows), BySortOrder)
    ensures unchanged(state`cells, state`dayStartMin, state`windowMinutes, state`slotStepMin, state`sourceFileName)
  {
    if state.rows == [] {
      return RedirectToUpload(None);
    }
    state.rows := SortBy(state.rows, BySortOrder);
    outcome := ShowSchedule;
  }

  /** `UpdateCell`: sets or clears the note of one row and slot. */
  method UpdateCell(state: BreaklistState, rowId: string, slot: int, value: string) returns (outcome: Outcome)
    modifies state
    ensures state.cells == WithCell(old(state.cells), CellKey(rowId, slot), value)
    ensures CellsWellFormed(old(state.cells)) ==> CellsWellFormed(state.cells)
    ensures unchanged(state`rows, state`dayStartMin, state`windowMinutes, state`slotStepMin, state`sourceFileName)
    ensures outcome == Ok
  {
    if CellsWellFormed(state.cells) {
      WithCellPreserves(state.cells, CellKey(rowId, slot), value);
    }
    var key := CellKey(rowId, slot);
    var v := Trim(value);
    if v == "" {
      state.cells := state.cells - {key};
    } else {
      state.cells := state.cells[key := if |v| > MaxCellLength then v[..MaxCellLength] else v];
    }
    outcome := Ok;
  }

  /** `UpdateRow`: edits the first row with the id; `NotFound` if there is none. */
  method UpdateRow(state: BreaklistState, rt: Runtime, rowId: string, name: string, start: string, end: string) returns (outcome: Outcome)
    modifies state
    ensures FirstWithId(old(state.rows), rowId).None? ==> outcome == NotFound && unchanged(state)
    ensures FirstWithId(old(state.rows), rowId).Some? ==>
              var i := FirstWithId(old(state.rows), rowId).value;
              && outcome == Ok
              && state.rows == old(state.rows)[i := EditedRow(rt, old(state.rows)[i], name, start, end, state.dayStartMin, state.windowMinutes)]
              && unchanged(state`cells, state`dayStartMin, state`windowMinutes, state`slotStepMin, state`sourceFileName)
  {
    var found := FirstWithId(state.rows, rowId);
    if found.None? {
      return NotFound;
    }
    var i := found.value;
    state.rows := state.rows[i := EditedRow(rt, state.rows[i], name, start, end, state.dayStartMin, state.windowMinutes)];
    outcome := Ok;
  }

  /** `AddRow`: appends "New Staff", 8 hours from the window's start, after every other row. */
  method AddRow(state: BreaklistState, freshId: string) returns (outcome: Outcome)
    modifies state
    ensures state.rows == old(state.rows)
              + [Row(freshId, NextSortOrder(old(state.rows)), NewRowName, state.dayStartMin, state.dayStartMin + NewRowMinutes)]
    ensures unchanged(state`cells, state`dayStartMin, state`windowMinutes, state`slotStepMin, state`sourceFileName)
    ensures outcome == RedirectToView
  {
    var order := NextSortOrder(state.rows);
    state.rows := state.rows + [Row(freshId, order, NewRowName, state.dayStartMin, state.dayStartMin + NewRowMinutes)];
    outcome := RedirectToView;
  }

  /**
   * `DeleteRow`: removes every row with the id and every cell whose key begins
   * with the id and a colon, then renumbers the remaining rows in `SortOrder`
   * order.
   */
  method DeleteRow(state: BreaklistState, rowId: string) returns (outcome: Outcome)
    modifies state
    ensures state.rows == Numbered(SortBy(WithoutId(old(state.rows), rowId), BySortOrder))
    ensures state.cells == WithoutPrefix(old(state.cells), rowId + ":")
    ensures CellsWellFormed(old(state.cells)) ==> CellsWellFormed(state.cells)
    ensures unchanged(state`dayStartMin, state`windowMinutes, state`slotStepMin, state`sourceFileName)
    ensures outcome == RedirectToView
  {
    state.rows := WithoutId(state.rows, rowId);

    var prefix := rowId + ":";
    var doomed := set k | k in state.cells && StartsWith(k, prefix);
    while doomed != {}
      invariant forall k :: k in doomed ==> k in old(state.cells) && StartsWith(k, prefix)
      invariant forall k :: k in state.cells <==> k in old(state.cells) && (k in doomed || !StartsWith(k, prefix))
      invariant forall k :: k in state.cells ==> state.cells[k] == old(state.cells)[k]
      invariant state.rows == WithoutId(old(state.rows), rowId) && unchanged(state`dayStartMin, state`windowMinutes, state`slotStepMin, state`sourceFileName)
      decreases |doomed|
    {
      var k :| k in doomed;
      state.cells := state.cells - {k};
      doomed := doomed - {k};
    }
    assert state.cells == WithoutPrefix(old(state.cells), prefix);

    state.rows := AssignSortOrders(SortBy(state.rows, BySortOrder));
    outcome := RedirectToView;
  }

  /**
   * `Reorder`: the rows named in the comma-separated list come first, in list
   * order, with `SortOrder` set to their position in the list; the other rows
   * follow in their order, numbered on from the count before them. Two rows
   * with one id make the lookup table throw, and nothing is saved.
   */
  method Reorder(state: BreaklistState, orderedIds: string) returns (outcome: Outcome)
    modifies state
    ensures HasDuplicateIds(old(state.rows)) ==> outcome == DuplicateKeyError && unchanged(state)
    ensures !HasDuplicateIds(old(state.rows)) ==> outcome == Ok
    ensures !HasDuplicateIds(old(state.rows)) ==> state.rows == Reordered(old(state.rows), SplitTrimmed(orderedIds, ','))
    ensures unchanged(state`cells, state`dayStartMin, state`windowMinutes, state`slotStepMin, state`sourceFileName)
  {
    if HasDuplicateIds(state.rows) {
      return DuplicateKeyError;
    }
    var ids := SplitTrimmed(orderedIds, ',');
    var newRows := ReorderRows(state.rows, ids);
    state.rows := newRows;
    outcome := Ok;
  }
}

/**
 * The schedule's data: one row per staff member, the persisted state that holds
 * the window configuration, the rows and the per-slot cell notes, and the
 * display format of a minute count.
 */
module Models {

  import opened DotNet
  import opened TimeWindow
  import StableSort

  /**
   * A staff row. `startAbsMin` and `endAbsMin` are absolute minutes on the
   * schedule window; `id` is an opaque token that the creator draws fresh.
   */
  datatype Row = Row(id: string, sortOrder: int, name: string, startAbsMin: int, endAbsMin: int)

  const DefaultDayStartMin := 360
  const DefaultWindowMinutes := 1500
  const DefaultSlotStepMin := 20

  /**
   * The single persisted schedule. The controller's actions load it, change
   * `rows` and `cells` in place, and save it back.
   */
  class BreaklistState {
    var dayStartMin: int
    var windowMinutes: int
    var slotStepMin: int
    var sourceFileName: string
    var rows: seq<Row>
    var cells: map<string, string>

    /** The state a fresh installation, or `ClearAll`, starts from. */
    predicate IsNew()
      reads this
    {
      && dayStartMin == DefaultDayStartMin
      && windowMinutes == DefaultWindowMinutes
      && slotStepMin == DefaultSlotStepMin
      && sourceFileName == ""
      && rows == []
      && cells == map[]
    }

    constructor ()
      ensures IsNew()
    {
      dayStartMin := DefaultDayStartMin;
      windowMinutes := DefaultWindowMinutes;
      slotStepMin := DefaultSlotStepMin;
      sourceFileName := "";
      rows := [];
      cells := map[];
    }
  }

  function DigitValue(c: char): int {
    c as int - '0' as int
  }

  predicate IsDigit(c: char) {
    '0' <= c <= '9'
  }

  /** The `HH:MM` text of a time of day: two-digit hours 00..23, a colon, two-digit minutes 00..59. */
  predicate IsClockText(s: string) {
    && |s| == 5
    && IsDigit(s[0]) && IsDigit(s[1]) && s[2] == ':' && IsDigit(s[3]) && IsDigit(s[4])
    && DigitValue(s[0]) * 10 + DigitValue(s[1]) < 24
    && DigitValue(s[3]) * 10 + DigitValue(s[4]) < 60
  }

  /** The minute of the day that an `HH:MM` text denotes. */
  function ClockTextMinutes(s: string): (m: int)
    requires IsClockText(s)
    ensures 0 <= m < MinutesPerDay
  {
    (DigitValue(s[0]) * 10 + DigitValue(s[1])) * 60 + DigitValue(s[3]) * 10 + DigitValue(s[4])
  }

  function TwoDigits(n: int): (s: string)
    requires 0 <= n < 100
    ensures |s| == 2 && IsDigit(s[0]) && IsDigit(s[1])
    ensures DigitValue(s[0]) * 10 + DigitValue(s[1]) == n
  {
    [DigitChar(n / 10), DigitChar(n % 10)]
  }

  /**
   * `BreaklistState.ToHHmm`: reduces the count into one day with C#'s `%`,
   * wrapping a negative remainder forward, and shows it as `HH:MM`.
   */
  function ToHHmm(minutes: int): (s: string)
    ensures IsClockText(s)
    ensures ClockTextMinutes(s) == minutes % MinutesPerDay
  {
    var m := CsRem(minutes, MinutesPerDay);
    CsRemWrapsToEuclidean(minutes, MinutesPerDay);
    var m := if m < 0 then m + MinutesPerDay else m;
    TwoDigits(m / 60) + ":" + TwoDigits(m % 60)
  }

  /** Different `HH:MM` texts denote different minutes of the day. */
  lemma ClockTextInjective(s: string, t: string)
    requires IsClockText(s) && IsClockText(t)
    requires ClockTextMinutes(s) == ClockTextMinutes(t)
    ensures s == t
  {
    var hs, ht := DigitValue(s[0]) * 10 + DigitValue(s[1]), DigitValue(t[0]) * 10 + DigitValue(t[1]);
    var ms, mt := DigitValue(s[3]) * 10 + DigitValue(s[4]), DigitValue(t[3]) * 10 + DigitValue(t[4]);
    EuclideanUnique(ClockTextMinutes(s), 60, hs, ms);
    EuclideanUnique(ClockTextMinutes(s), 60, ht, mt);
    EuclideanUnique(hs, 10, DigitValue(s[0]), DigitValue(s[1]));
    EuclideanUnique(ht, 10, DigitValue(t[0]), DigitValue(t[1]));
    EuclideanUnique(ms, 10, DigitValue(s[3]), DigitValue(s[4]));
    EuclideanUnique(mt, 10, DigitValue(t[3]), DigitValue(t[4]));
    assert s[0] == t[0] && s[1] == t[1] && s[3] == t[3] && s[4] == t[4];
  }

  /** The display ignores whole days: shifting the input by any number of days shows the same text. */
  lemma ToHHmmPeriodic(minutes: int, days: int)
    ensures ToHHmm(minutes + MinutesPerDay * days) == ToHHmm(minutes)
  {
    ShiftByDays(minutes, days);
    assert minutes + MinutesPerDay * days == minutes + days * MinutesPerDay;
    ClockTextInjective(ToHHmm(minutes + MinutesPerDay * days), ToHHmm(minutes));
  }

  /** `OrderBy(r => r.SortOrder)`. */
  predicate BySortOrder(a: Row, b: Row) {
    a.sortOrder <= b.sortOrder
  }

  /** `OrderBy(r => r.StartAbsMin).ThenBy(r => r.Name)` under the culture's name order `nameLe`. */
  function ByStartThenName(nameLe: (string, string) -> bool): (Row, Row) -> bool {
    (a: Row, b: Row) => a.startAbsMin < b.startAbsMin || (a.startAbsMin == b.startAbsMin && nameLe(a.name, b.name))
  }

  lemma BySortOrderIsTotalPreorder()
    ensures StableSort.TotalPreorder(BySortOrder)
  {
  }

  /** Ordering by start and then by a total preorder on names is itself a total preorder. */
  lemma ByStartThenNameIsTotalPreorder(nameLe: (string, string) -> bool)
    requires StableSort.TotalPreorder(nameLe)
    ensures StableSort.TotalPreorder(ByStartThenName(nameLe))
  {
    var le := ByStartThenName(nameLe);
    forall a, b, c | le(a, b) && le(b, c) ensures le(a, c) {
      if a.startAbsMin == b.startAbsMin == c.startAbsMin {
        assert nameLe(a.name, b.name) && nameLe(b.name, c.name);
      }
    }
    forall a, b ensures le(a, b) || le(b, a) {
      assert nameLe(a.name, b.name) || nameLe(b.name, a.name);
    }
  }

  /** The rows with `SortOrder` set to their position. */
  function Numbered(rows: seq<Row>): (numbered: seq<Row>)
    ensures |numbered| == |rows|
    ensures forall i :: 0 <= i < |rows| ==> numbered[i] == rows[i].(sortOrder := i)
  {
    seq(|rows|, i requires 0 <= i < |rows| => rows[i].(sortOrder := i))
  }

  /** The rows with `SortOrder` cleared: what is left to compare once positions are ignored. */
  function WithoutOrders(rows: seq<Row>): (cleared: seq<Row>)
    ensures |cleared| == |rows|
    ensures forall i :: 0 <= i < |rows| ==> cleared[i] == rows[i].(sortOrder := 0)
  {
    seq(|rows|, i requires 0 <= i < |rows| => rows[i].(sortOrder := 0))
  }

  /**
   * The loop `for (i = 0; i < rows.Count; i++) rows[i].SortOrder = i;` that the
   * parser, `SortByStartTime` and `DeleteRow` each run over a freshly sorted list.
   */
  method AssignSortOrders(rows: seq<Row>) returns (numbered: seq<Row>)
    ensures |numbered| == |rows|
    ensures forall i :: 0 <= i < |rows| ==> numbered[i].sortOrder == i
    ensures numbered == Numbered(rows)
  {
    numbered := rows;
    var i := 0;
    while i < |numbered|
      invariant 0 <= i <= |numbered| == |rows|
      invariant forall j :: 0 <= j < i ==> numbered[j] == rows[j].(sortOrder := j)
      invariant forall j :: i <= j < |rows| ==> numbered[j] == rows[j]
    {
      numbered := numbered[i := numbered[i].(sortOrder := i)];
      i := i + 1;
    }
  }

  /** Clearing `SortOrder` commutes with concatenation. */
  lemma WithoutOrdersAppend(a: seq<Row>, b: seq<Row>)
    ensures WithoutOrders(a + b) == WithoutOrders(a) + WithoutOrders(b)
  {
    assert forall i :: 0 <= i < |a + b| ==> WithoutOrders(a + b)[i] == (WithoutOrders(a) + WithoutOrders(b))[i];
  }

  /** Rearranging rows rearranges their cleared copies the same way. */
  lemma {:induction false} WithoutOrdersPermutation(a: seq<Row>, b: seq<Row>)
    requires multiset(a) == multiset(b)
    ensures multiset(WithoutOrders(a)) == multiset(WithoutOrders(b))
    decreases |a|
  {
    if a == [] {
      assert |b| == |multiset(b)| == 0;
    } else {
      var x := a[0];
      assert x in multiset(b);
      var j :| 0 <= j < |b| && b[j] == x;
      var rest := b[..j] + b[j + 1..];
      assert b == b[..j] + [x] + b[j + 1..];
      assert a == [x] + a[1..];
      assert multiset(a) == multiset{x} + multiset(a[1..]);
      assert multiset(b) == multiset(b[..j]) + multiset{x} + multiset(b[j + 1..]);
      assert multiset(rest) == multiset(b[..j]) + multiset(b[j + 1..]);
      assert multiset(a[1..]) == multiset(a) - multiset{x};
      assert multiset(a[1..]) == multiset(rest);
      WithoutOrdersPermutation(a[1..], rest);
      WithoutOrdersAppend([x], a[1..]);
      WithoutOrdersAppend(b[..j], [x]);
      WithoutOrdersAppend(b[..j] + [x], b[j + 1..]);
      WithoutOrdersAppend(b[..j], b[j + 1..]);
    }
  }

  /**
   * Sorting by start time and name and then numbering, as the parser and
   * `SortByStartTime` do: the result is ordered by start time and name, carries
   * `SortOrder` 0, 1, 2, ..., and holds the same rows up to `SortOrder`.
   */
  lemma SortByStartThenNameAndNumber(rows: seq<Row>, nameLe: (string, string) -> bool)
    requires StableSort.TotalPreorder(nameLe)
    ensures StableSort.SortedBy(Numbered(StableSort.SortBy(rows, ByStartThenName(nameLe))), ByStartThenName(nameLe))
    ensures multiset(WithoutOrders(Numbered(StableSort.SortBy(rows, ByStartThenName(nameLe))))) == multiset(WithoutOrders(rows))
  {
    var le := ByStartThenName(nameLe);
    var s := StableSort.SortBy(rows, le);
    var numbered := Numbered(s);
    ByStartThenNameIsTotalPreorder(nameLe);
    StableSort.SortBySorted(rows, le);
    forall i, j | 0 <= i < j < |numbered| ensures le(numbered[i], numbered[j]) {
      assert le(s[i], s[j]);
    }
    assert WithoutOrders(numbered) == WithoutOrders(s);
    WithoutOrdersPermutation(s, rows);
  }

  /**
   * Sorting by the current `SortOrder` and then numbering, as `DeleteRow` does:
   * the rows keep the order their old `SortOrder` gave them, carry `SortOrder`
   * 0, 1, 2, ..., and are the same rows up to `SortOrder`.
   */
  lemma SortBySortOrderAndNumber(rows: seq<Row>)
    ensures forall i, j :: 0 <= i < j < |rows| ==>
              StableSort.SortBy(rows, BySortOrder)[i].sortOrder <= StableSort.SortBy(rows, BySortOrder)[j].sortOrder
    ensures multiset(WithoutOrders(Numbered(StableSort.SortBy(rows, BySortOrder)))) == multiset(WithoutOrders(rows))
  {
    var s := StableSort.SortBy(rows, BySortOrder);
    BySortOrderIsTotalPreorder();
    StableSort.SortBySorted(rows, BySortOrder);
    assert WithoutOrders(Numbered(s)) == WithoutOrders(s);
    WithoutOrdersPermutation(s, rows);
  }
}

/**
 * The culture-dependent and floating-point services of the .NET runtime that the
 * parser and the row editor call, as parameters. Their results are taken as
 * given; only the ranges their types guarantee, and the total preorder of the
 * string comparer, are assumed.
 */
module Platform {

  import opened Common
  import opened Spreadsheet
  import StableSort

  datatype Runtime = Runtime(
    /** `TimeSpan.TryParse(s)` in the current culture, giving `(int)ts.TotalMinutes`. */
    parseTimeSpan: string -> Option<int>,
    /** `TimeSpan.TryParse(s, CultureInfo.InvariantCulture)`, giving `(int)ts.TotalMinutes`. */
    parseTimeSpanInvariant: string -> Option<int>,
    /** `DateTime.TryParse(s, CultureInfo.CurrentCulture, ...)`, giving its hour and minute. */
    parseDateTime: string -> Option<ClockTime>,
    /** `DateTime.TryParse(s, CultureInfo.InvariantCulture, ...)`, giving its hour and minute. */
    parseDateTimeInvariant: string -> Option<ClockTime>,
    /** The hour and minute of `DateTime.FromOADate(d)`. */
    fromOADate: real -> ClockTime,
    /** `value.ToString()` of a typed cell value in the current culture. */
    display: CellValue -> string,
    /** The current culture's string order, used by `ThenBy(name)`. */
    nameLe: (string, string) -> bool)
  {
    /** What the culture's string comparer guarantees: names are totally preordered. */
    ghost predicate Valid() {
      StableSort.TotalPreorder(nameLe)
    }
  }
}

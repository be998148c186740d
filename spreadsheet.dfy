/**
 * The decoded workbook as the parser sees it: named worksheets, each a sparse
 * grid of typed cell values addressed by 1-based (row, column), with the used
 * range's last row and column when the sheet has any content. This stands in
 * for the spreadsheet decoding library.
 */
module Spreadsheet {

  import opened Common

  type Hour = h: int | 0 <= h < 24
  type MinuteOfHour = m: int | 0 <= m < 60

  /** The hour and minute of a date-time value; its date plays no part here. */
  datatype ClockTime = ClockTime(hour: Hour, minute: MinuteOfHour)

  /** `dt.Hour * 60 + dt.Minute`: the minute of the day a clock time shows. */
  function MinuteOfDay(t: ClockTime): (m: int)
    ensures 0 <= m < 24 * 60
    ensures m / 60 == t.hour && m % 60 == t.minute
  {
    t.hour * 60 + t.minute
  }

  /** A cell's value as the decoding library types it. */
  datatype CellValue =
    | Empty                         // no value (C# null)
    | DateTimeValue(time: ClockTime) // a DateTime
    | TimeSpanValue(totalMinutes: int) // a TimeSpan; its TotalMinutes cast to int, i.e. truncated
    | Number(serial: real)          // a double, which the parser reads as an OLE Automation date
    | Text(text: string)            // any other value, by its string form

  /** The used range ends at this row and column. */
  datatype Extent = Extent(lastRow: int, lastColumn: int)

  datatype Worksheet = Worksheet(name: string, cells: map<(int, int), CellValue>, dimension: Option<Extent>)

  type Workbook = seq<Worksheet>

  function CellAt(ws: Worksheet, row: int, column: int): CellValue {
    if (row, column) in ws.cells then ws.cells[(row, column)] else Empty
  }
}

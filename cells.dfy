/** The cells of the sheet and the text each one shows. */
module Cells {
  import opened Wrappers
  import opened MachineInts
  import opened Numerals

  /** A cell holds text or a 32-bit signed number. */
  datatype TableCell = String(s: string) | Value(v: int32)

  /** The text shown for a cell: a text cell verbatim, a number as its
      canonical decimal numeral (the only canonical text that reads back as it). */
  function FormatString(cell: TableCell): (text: string)
    ensures cell.String? ==> text == cell.s
    ensures cell.Value? ==> Canonical(text) && ParseDecimal(text) == Some(cell.v as int)
  {
    match cell
    case String(s) => s
    case Value(v) => Decimal(v)
  }
}

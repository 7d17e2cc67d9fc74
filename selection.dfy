/** The highlighted rectangle of cells. */
module Selections {
  import opened MachineInts

  /** Anchor cell (`row`, `col`) and span (`rows`, `cols`), all u16. */
  datatype Selection = Selection(row: uint16, col: uint16, rows: uint16, cols: uint16)

  /** Neither `row + rows` nor `col + cols` leaves the u16 range. */
  predicate SpanFits(sel: Selection) {
    sel.row + sel.rows < U16_LIMIT && sel.col + sel.cols < U16_LIMIT
  }

  /** `Selection::selected`: whether cell (`row`, `col`) lies in the rectangle.
      The bounds `row + rows` and `col + cols` are u16 sums; when one of them
      wraps, the rectangle selects nothing. */
  function Selected(sel: Selection, row: uint16, col: uint16): (b: bool)
    ensures SpanFits(sel) ==>
      (b <==> sel.row <= row < sel.row + sel.rows && sel.col <= col < sel.col + sel.cols)
    ensures !SpanFits(sel) ==> !b
  {
    row >= sel.row && row < WrappingAdd16(sel.row, sel.rows)
    && col >= sel.col && col < WrappingAdd16(sel.col, sel.cols)
  }

  /** A 1x1 selection whose span fits selects its anchor and nothing else. */
  lemma SingleCellSelection(sel: Selection, row: uint16, col: uint16)
    requires sel.rows == 1 && sel.cols == 1 && SpanFits(sel)
    ensures Selected(sel, row, col) <==> row == sel.row && col == sel.col
  {
  }
}

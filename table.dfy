/** The table widget: the content it draws, how big each row and column is,
    and the render walk that writes headers and cells into the screen buffer.
    A buffer write (`buf.set_string`) is recorded as a `Write`; what the
    buffer then does with it (clipping, style merging) is not modelled. */
module Table {
  import opened Wrappers
  import opened MachineInts
  import opened Numerals
  import opened Cells
  import opened Selections

  /** The sheet: row-major cells (rows may differ in length), explicit column
      widths and row heights, and the selection. */
  datatype TableContent = TableContent(
    cells: seq<seq<TableCell>>,
    colWidths: seq<uint16>,
    rowHeights: seq<uint16>,
    selection: Selection)

  /** The screen rectangle the widget is given. */
  datatype Rect = Rect(x: uint16, y: uint16, width: uint16, height: uint16) {
    function Right(): int { x + width }
    function Bottom(): int { y + height }
  }

  /** A style, reduced to the one modifier the widget sets. */
  datatype Style = Style(bold: bool)

  const HEADER_STYLE := Style(true)
  const COLUMN_STYLE := Style(false)
  const SELECTED_COLUMN_STYLE := Style(true)

  /** One `buf.set_string(x, y, text, style)`. */
  datatype Write = Write(x: uint16, y: uint16, text: string, style: Style)

  const DEFAULT_ROW_HEIGHT: uint16 := 1
  const DEFAULT_COL_WIDTH: uint16 := 4

  /** `Vec::get`. */
  function VecGet<T>(v: seq<T>, i: nat): Option<T> {
    if i < |v| then Some(v[i]) else None
  }

  /** `sizes.get(index - 1).map(|s| *s).unwrap_or(default)`: logical row or
      column `index` takes entry `index - 1`; the header (index 0, where
      `index - 1` wraps to `usize::MAX`) and indices past the vector take
      the default. */
  function ResolveSize(sizes: seq<uint16>, index: nat, default: uint16): (size: uint16)
    requires |sizes| <= USIZE_MAX
    ensures 1 <= index <= |sizes| ==> size == sizes[index - 1]
    ensures index == 0 || index > |sizes| ==> size == default
  {
    VecGet(sizes, WrappingPred(index)).GetOr(default)
  }

  /** `cells.get(row).and_then(|r| r.get(col))`: a cell exists exactly when its
      row exists and that row is long enough. */
  function CellAt(cells: seq<seq<TableCell>>, row: nat, col: nat): (cell: Option<TableCell>)
    ensures cell.Some? <==> row < |cells| && col < |cells[row]|
    ensures cell.Some? ==> cell.value == cells[row][col]
  {
    match VecGet(cells, row)
    case None => None
    case Some(r) => VecGet(r, col)
  }

  /** Every entry and the default are positive (a zero entry would place two
      logical cells at the same screen position), and adding any of them to a
      position left of `edge` stays within u16. */
  predicate SizesFit(sizes: seq<uint16>, default: uint16, edge: int) {
    && |sizes| <= USIZE_MAX
    && 0 < default && edge + default <= U16_LIMIT
    && forall i :: 0 <= i < |sizes| ==> 0 < sizes[i] && edge + sizes[i] <= U16_LIMIT
  }

  /** What the render walk needs of its inputs. */
  predicate RenderSafe(content: TableContent, area: Rect) {
    && SizesFit(content.colWidths, DEFAULT_COL_WIDTH, area.Right())
    && SizesFit(content.rowHeights, DEFAULT_ROW_HEIGHT, area.Bottom())
  }

  function ColWidth(content: TableContent, col: nat): uint16
    requires |content.colWidths| <= USIZE_MAX
  {
    ResolveSize(content.colWidths, col, DEFAULT_COL_WIDTH)
  }

  function RowHeight(content: TableContent, row: nat): uint16
    requires |content.rowHeights| <= USIZE_MAX
  {
    ResolveSize(content.rowHeights, row, DEFAULT_ROW_HEIGHT)
  }

  /** The screen column at which logical column `col` starts: `area.x` plus the
      widths of the columns before it. Every column is at least one cell wide. */
  function ColLeft(content: TableContent, area: Rect, col: nat): (x: int)
    requires RenderSafe(content, area)
    ensures x >= area.x + col
  {
    if col == 0 then area.x else ColLeft(content, area, col - 1) + ColWidth(content, col - 1)
  }

  /** The screen row at which logical row `row` starts. */
  function RowTop(content: TableContent, area: Rect, row: nat): (y: int)
    requires RenderSafe(content, area)
    ensures y >= area.y + row
  {
    if row == 0 then area.y else RowTop(content, area, row - 1) + RowHeight(content, row - 1)
  }

  /** What the walk writes for logical cell (`row`, `col`) placed at (`x`, `y`);
      all of it lands at that place. */
  function CellOutput(content: TableContent, row: nat, col: nat, x: uint16, y: uint16): (ws: seq<Write>)
    requires row <= U16_LIMIT && col <= U16_LIMIT
    ensures forall w :: w in ws ==> w.x == x && w.y == y
  {
    if row == 0 then
      if col == 0 then [Write(x, y, "**", HEADER_STYLE)] else [Write(x, y, Decimal(col), HEADER_STYLE)]
    else if col == 0 then
      [Write(x, y, Decimal(row), HEADER_STYLE)]
    else
      var tableRow: uint16 := row - 1;
      var tableCol: uint16 := col - 1;
      match CellAt(content.cells, tableRow, tableCol)
      case None => []
      case Some(c) =>
        var style := if Selected(content.selection, tableRow, tableCol) then SELECTED_COLUMN_STYLE else COLUMN_STYLE;
        [Write(x, y, FormatString(c), style)]
  }

  /** The output of one logical cell: row 0 is the header row ("**" in the
      corner, then the column numbers), column 0 holds the row numbers, all in
      the header style; every other cell shows content cell (`row - 1`,
      `col - 1`) when the ragged row has it, and nothing otherwise, in the
      selected style exactly when the selection contains that cell. */
  lemma CellOutputContents(content: TableContent, row: nat, col: nat, x: uint16, y: uint16)
    requires row <= U16_LIMIT && col <= U16_LIMIT
    ensures var ws := CellOutput(content, row, col, x, y);
      && |ws| <= 1
      && (row == 0 && col == 0 ==> ws == [Write(x, y, "**", HEADER_STYLE)])
      && (row == 0 && col > 0 ==>
            |ws| == 1 && ws[0].style == HEADER_STYLE
            && Canonical(ws[0].text) && ParseDecimal(ws[0].text) == Some(col))
      && (row > 0 && col == 0 ==>
            |ws| == 1 && ws[0].style == HEADER_STYLE
            && Canonical(ws[0].text) && ParseDecimal(ws[0].text) == Some(row))
      && (row > 0 && col > 0 ==>
            (|ws| == 1 <==> row - 1 < |content.cells| && col - 1 < |content.cells[row - 1]|))
      && (row > 0 && col > 0 && |ws| == 1 ==>
            && ws[0].text == FormatString(content.cells[row - 1][col - 1])
            && (ws[0].style == SELECTED_COLUMN_STYLE <==> Selected(content.selection, row - 1, col - 1)))
  {
  }

  /** The output of logical cell (`row`, `col`) at its place on screen. */
  function CellWrites(content: TableContent, area: Rect, row: nat, col: nat): seq<Write>
    requires RenderSafe(content, area)
    requires RowTop(content, area, row) < area.Bottom() && ColLeft(content, area, col) < area.Right()
  {
    CellOutput(content, row, col, ColLeft(content, area, col), RowTop(content, area, row))
  }

  /** The writes of logical row `row`, from column `col` to the right edge. */
  function RowCells(content: TableContent, area: Rect, row: nat, col: nat): seq<Write>
    requires RenderSafe(content, area) && RowTop(content, area, row) < area.Bottom()
    decreases area.Right() - ColLeft(content, area, col)
  {
    if ColLeft(content, area, col) >= area.Right() then []
    else CellWrites(content, area, row, col) + RowCells(content, area, row, col + 1)
  }

  /** The writes of the rows from `row` down to the bottom edge. */
  function RowsFrom(content: TableContent, area: Rect, row: nat): seq<Write>
    requires RenderSafe(content, area)
    decreases area.Bottom() - RowTop(content, area, row)
  {
    if RowTop(content, area, row) >= area.Bottom() then []
    else RowCells(content, area, row, 0) + RowsFrom(content, area, row + 1)
  }

  /** Everything one render writes, in order. */
  function Layout(content: TableContent, area: Rect): seq<Write>
    requires RenderSafe(content, area)
  {
    RowsFrom(content, area, 0)
  }

  /** One step of the column walk: a column that starts left of the right
      edge is at least one cell wide, and the next one starts that much further
      right, still within u16. */
  lemma ColStep(content: TableContent, area: Rect, col: nat)
    requires RenderSafe(content, area) && ColLeft(content, area, col) < area.Right()
    ensures 0 < ColWidth(content, col)
    ensures ColLeft(content, area, col + 1) == ColLeft(content, area, col) + ColWidth(content, col) < U16_LIMIT
  {
  }

  /** One step of the row walk, as `ColStep`. */
  lemma RowStep(content: TableContent, area: Rect, row: nat)
    requires RenderSafe(content, area) && RowTop(content, area, row) < area.Bottom()
    ensures 0 < RowHeight(content, row)
    ensures RowTop(content, area, row + 1) == RowTop(content, area, row) + RowHeight(content, row) < U16_LIMIT
  {
  }

  lemma RowCellsStep(content: TableContent, area: Rect, row: nat, col: nat)
    requires RenderSafe(content, area) && RowTop(content, area, row) < area.Bottom()
    requires ColLeft(content, area, col) < area.Right()
    ensures RowCells(content, area, row, col) == CellWrites(content, area, row, col) + RowCells(content, area, row, col + 1)
  {
  }

  /** Appending a visible cell's output advances the column walk by one. */
  lemma RowCellsAdvance(content: TableContent, area: Rect, row: nat, col: nat, done: seq<Write>)
    requires RenderSafe(content, area) && RowTop(content, area, row) < area.Bottom()
    requires ColLeft(content, area, col) < area.Right()
    requires done + RowCells(content, area, row, col) == RowCells(content, area, row, 0)
    ensures (done + CellWrites(content, area, row, col)) + RowCells(content, area, row, col + 1)
            == RowCells(content, area, row, 0)
  {
    RowCellsStep(content, area, row, col);
    var cell, rest := CellWrites(content, area, row, col), RowCells(content, area, row, col + 1);
    assert (done + cell) + rest == done + (cell + rest);
  }

  lemma RowCellsEnd(content: TableContent, area: Rect, row: nat, col: nat)
    requires RenderSafe(content, area) && RowTop(content, area, row) < area.Bottom()
    requires ColLeft(content, area, col) >= area.Right()
    ensures RowCells(content, area, row, col) == []
  {
  }

  /** Appending a visible row's writes advances the row walk by one. */
  lemma RowsFromAdvance(content: TableContent, area: Rect, row: nat, done: seq<Write>)
    requires RenderSafe(content, area) && RowTop(content, area, row) < area.Bottom()
    requires done + RowsFrom(content, area, row) == Layout(content, area)
    ensures (done + RowCells(content, area, row, 0)) + RowsFrom(content, area, row + 1) == Layout(content, area)
  {
    RowsFromStep(content, area, row);
    var cells, rest := RowCells(content, area, row, 0), RowsFrom(content, area, row + 1);
    assert (done + cells) + rest == done + (cells + rest);
  }

  lemma RowsFromStep(content: TableContent, area: Rect, row: nat)
    requires RenderSafe(content, area) && RowTop(content, area, row) < area.Bottom()
    ensures RowsFrom(content, area, row) == RowCells(content, area, row, 0) + RowsFrom(content, area, row + 1)
  {
  }

  /** The body of the column loop in `Table::render`: the buffer writes for
      logical cell (`row`, `col`) at screen position (`x`, `y`). Its branches
      are those of `CellOutput`, which it is proved equal to. */
  method RenderCell(content: TableContent, row: nat, col: nat, x: uint16, y: uint16) returns (writes: seq<Write>)
    requires row <= U16_LIMIT && col <= U16_LIMIT
    ensures writes == CellOutput(content, row, col, x, y)
  {
    writes := [];
    if row == 0 {
      if col == 0 {
        writes := writes + [Write(x, y, "**", HEADER_STYLE)];
      } else {
        writes := writes + [Write(x, y, Decimal(col), HEADER_STYLE)];
      }
    } else {
      if col == 0 {
        writes := writes + [Write(x, y, Decimal(row), HEADER_STYLE)];
      } else {
        var tableRow: uint16 := row - 1;
        var tableCol: uint16 := col - 1;
        var cell := CellAt(content.cells, tableRow, tableCol);
        if cell.Some? {
          var style := if Selected(content.selection, tableRow, tableCol) then SELECTED_COLUMN_STYLE else COLUMN_STYLE;
          writes := writes + [Write(x, y, FormatString(cell.value), style)];
        }
      }
    }
  }

  /** The column loop of `Table::render` for logical row `row`, whose top is at
      screen row `y`: walks the columns from `area.x` rightwards, advancing `x`
      by each resolved width until the right edge. */
  method RenderRow(content: TableContent, area: Rect, row: nat, y: uint16) returns (writes: seq<Write>)
    requires RenderSafe(content, area)
    requires y == RowTop(content, area, row) && y < area.Bottom()
    ensures writes == RowCells(content, area, row, 0)
  {
    writes := [];
    var col: nat := 0;
    var x: uint16 := area.x;
    while x < area.x + area.width
      invariant x == ColLeft(content, area, col)
      invariant writes + RowCells(content, area, row, col) == RowCells(content, area, row, 0)
      decreases area.Right() - x
    {
      ColStep(content, area, col);
      RowCellsAdvance(content, area, row, col, writes);
      var colWidth := ResolveSize(content.colWidths, col, DEFAULT_COL_WIDTH);
      var cellWrites := RenderCell(content, row, col, x, y);
      writes := writes + cellWrites;
      x := x + colWidth;
      col := col + 1;
    }
    RowCellsEnd(content, area, row, col);
  }

  /** `Table::render`: walks logical rows down from `area.y`, advancing `y` by
      each resolved height until the bottom edge, and records every buffer
      write the rows make. */
  method Render(content: TableContent, area: Rect) returns (writes: seq<Write>)
    requires RenderSafe(content, area)
    ensures writes == Layout(content, area)
  {
    writes := [];
    var row: nat := 0;
    var y: uint16 := area.y;
    while y < area.y + area.height
      invariant y == RowTop(content, area, row)
      invariant writes + RowsFrom(content, area, row) == Layout(content, area)
      decreases area.Bottom() - y
    {
      RowStep(content, area, row);
      RowsFromAdvance(content, area, row, writes);
      var rowHeight := ResolveSize(content.rowHeights, row, DEFAULT_ROW_HEIGHT);
      var rowWrites := RenderRow(content, area, row, y);
      writes := writes + rowWrites;
      row := row + 1;
      y := y + rowHeight;
    }
  }
}

# visp: a verified model of the table viewer core

visp ("VI-style SPreadsheet") is a terminal spreadsheet viewer. This early
snapshot draws a fixed sheet as a table widget and lets the user move the
highlighted cell with `h`, `j`, `k`, `l` until Esc. The model covers its core:

- **Cells** (`cells.dfy`): a cell is text or an `i32`. `FormatString` shows text as it is
  and a number as its decimal numeral. Decimal numerals are in `numerals.dfy`, with the
  parser that reads them back.
- **Selection** (`selection.dfy`): an anchor `(row, col)` and a span `(rows, cols)`, all u16,
  and the containment test `Selected`.
- **Table widget** (`table.dfy`): the content is ragged rows of cells plus explicit column
  widths, row heights and the selection. Size resolution is shifted by one for the header
  and falls back to width 4 / height 1. `Render` is the two nested walks of
  `Table::render` (`RenderRow` is the inner column loop and `RenderCell` its body). It
  records every `buf.set_string(x, y, text, style)` as a `Write` and is proved equal to
  the specification function `Layout`.
- **Layout by position** (`table_layout.dfy`): lemmas about `Layout`. A render writes
  exactly the outputs of the logical cells whose top-left corner lies inside the area.
  Each output sits at its own cell's place, and no two cells share a place. So every
  write is inside the area, the corner is `"**"`, and headers carry the decimal column
  and row numbers. A content cell is written only when the ragged row has it, and it
  uses the selected style exactly when the selection contains it.
- **Event loop** (`app.dfy`): `main`'s loop as a method over the outcomes of its waits.
  Each iteration draws a frame and then handles one event. `j`/`k` move the anchor row
  by one and `l`/`h` move the anchor column by one. Esc ends the loop. The content is a
  struct held by value in a mutable local of `main`, so the model uses a datatype that
  the loop updates field by field.

Arithmetic follows a build without overflow checks, which is Rust's release profile:
- u16 `+= 1` and `-= 1` wrap. So `k` at row 0 moves the anchor to row 65535.
- `row - 1` for the header row wraps to `usize::MAX`, so the header gets the default size.
- `self.row + self.rows` in `selected` wraps, so a span that passes 65535 selects nothing.

This version of the viewer has no Normal/Visual mode, no alphabetic column labels,
no saturating movement, no cell clearing and no truncation. The model follows the
code: decimal column headers, wrap-around movement, no clearing and no truncation.

## Model

| member | source | states |
|---|---|---|
| `Numerals.Decimal` | src/main.rs:93 | `format!("{}", n)` is canonical (no leading zeros, no `-0`, a single `0` for zero) and reads back as `n` under `ParseDecimal`, so distinct numbers get distinct text |
| `Numerals.DecimalUnique` | src/main.rs:93 | every canonical numeral that reads as `n` is `Decimal(n)`: canonical form plus value pins down `format!`'s text exactly |
| `Numerals.NatDigits` | src/main.rs:144 | the digits of a number are non-empty, all decimal digits, and start with `0` only for 0 itself |
| `Numerals.NatDigitsValue` | src/main.rs:149 | the digits of `n` denote `n` (inductive round trip) |
| `Cells.FormatString` | src/main.rs:90-95 | a text cell shows its string verbatim; a number cell shows the canonical numeral that reads back as its value |
| `Selections.Selected` | src/main.rs:107-110 | when the u16 sums do not wrap: holds iff `row <= r < row + rows` and `col <= c < col + cols`; when one wraps: holds for no cell |
| `Selections.SingleCellSelection` | src/main.rs:107-110 | a 1x1 selection contains its anchor and no other cell |
| `MachineInts.WrappingAdd16` | src/main.rs:54 | u16 `+` is the exact sum below 2^16 and the sum minus 2^16 otherwise |
| `MachineInts.WrappingSub16` | src/main.rs:57 | u16 `-` is the exact difference when it is not negative, otherwise the difference plus 2^16 |
| `Table.ResolveSize` | src/main.rs:134-138 | logical index `i >= 1` takes `sizes[i-1]` when present; the header (index 0) and indices past the vector take the default |
| `Table.CellAt` | src/main.rs:154 | a cell exists iff its row exists and that ragged row is long enough, and then it is that element |
| `Table.ColLeft` | src/main.rs:136-166 | logical column `c` starts at least `c` cells right of `area.x` |
| `Table.RowTop` | src/main.rs:131-171 | logical row `r` starts at least `r` cells below `area.y` |
| `Table.CellOutputContents` | src/main.rs:139-163 | corner `"**"`; headers show the canonical numeral of the column or row index, in the header style; content cell written iff present, with its formatted text, selected style iff `selected(row-1, col-1)` |
| `Table.RenderCell` | src/main.rs:139-163 | the branch body writes exactly the cell's output at `(x, y)` |
| `Table.RenderRow` | src/main.rs:135-168 | the column loop writes exactly the row's cells from `area.x` up to the right edge |
| `Table.Render` | src/main.rs:125-173 | the nested walk writes exactly `Layout(content, area)`, with positive sizes and no u16 overflow |
| `TableLayout.ColLeftIncreasing` | src/main.rs:166 | columns further right start strictly further right |
| `TableLayout.RowTopIncreasing` | src/main.rs:171 | rows further down start strictly further down |
| `TableLayout.PlacesDistinct` | src/main.rs:166-171 | two logical cells starting at the same screen place are the same cell |
| `TableLayout.LayoutMembers` | src/main.rs:133-171 | a write is in the render iff it is the output of a logical cell whose top-left corner is inside the area |
| `TableLayout.LayoutInArea` | src/main.rs:133-137 | every write lies in `[area.x, area.x+width) x [area.y, area.y+height)` |
| `TableLayout.LayoutAt` | src/main.rs:139-163 | a write at a visible cell's place is in the render iff it is that cell's output: the render writes that output there and nothing else |
| `TableLayout.LayoutStartsWithCorner` | src/main.rs:139-142 | a render into a non-empty area begins with `"**"` at the area's top-left, in the header style |
| `App.ApplyEvent` | src/main.rs:53-68 | an event changes only the anchor: `j`/`k` only its row, `l`/`h` only its column, other events nothing; cells, sizes and span stay |
| `App.MoveByOne` | src/main.rs:53-64 | away from the u16 edges each key moves the anchor by exactly one; `k`/`h` at 0 wrap to 65535 and `j`/`l` at 65535 wrap to 0 |
| `App.MovesUndo` | src/main.rs:53-64 | `j` and `k` undo each other, and so do `l` and `h`, from every state |
| `App.ApplyPolls` | src/main.rs:45-70 | after any sequence of waits, cells, sizes and span are unchanged |
| `App.EventLoop` | src/main.rs:45-70 | frames are drawn before each event and show the content the earlier events left; the loop stops exactly at the first Esc or when input runs out |
| `App.InitialContent` | src/main.rs:28-43 | at startup exactly the cell (0, 0) is selected |
| `App.InitialContentRenders` | src/main.rs:35-36 | the startup widths `[10, 5]` and heights `[1, 2]` meet the render's requirements for any area that leaves room for them |

## Left out

- Terminal setup and teardown (raw mode, alternate screen, mouse capture) and cursor restore: I/O.
- The `?` error exits from `draw`, `poll` and `read`: I/O failures.
- The one-second `poll` timeout: each wait's outcome is an input to `EventLoop`, and `None` means it timed out.
- `ui`, the `Layout` split and the `Paragraph` command line: these are library code. The table's area is a parameter of `EventLoop` and stays fixed, so terminal resizes are not modelled.
- The internals of `Buffer::set_string`, such as clipping at the buffer edge and style merging: a write is only recorded.
- `Style` is reduced to its bold modifier, which is the only one the widget sets.
- Table.Render: requires every column width, row height and default to be positive. A zero size makes the walk write two logical cells at the same screen place, and the placement lemmas rely on distinct places. `main` only passes the positive constants `[10, 5]` and `[1, 2]`.
- Table.Render: requires that every size entry and default, added to any position left of the edge, stays within 65535. This bounds every entry, including ones the walk never reaches. The u16 wrap-around of `x += col_width` and `y += row_height` past 65535 is not modelled.
- Debug builds panic on u16 overflow where the model wraps, as release builds do.
- `EventLoop` ends when its finite input runs out; the source waits for more.

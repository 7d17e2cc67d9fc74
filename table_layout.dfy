/** What one render writes, stated by screen position rather than by the order
    of the walk: the writes are exactly the outputs of the logical cells whose
    top-left corner lies inside the area, each at its own place, and no two
    cells share a place. */
module TableLayout {
  import opened Table

  /** Logical cell (`row`, `col`) starts inside the area, so the walk reaches it. */
  predicate Visible(content: TableContent, area: Rect, row: nat, col: nat)
    requires RenderSafe(content, area)
  {
    RowTop(content, area, row) < area.Bottom() && ColLeft(content, area, col) < area.Right()
  }

  /** Columns further right start strictly further right. */
  lemma {:induction false} ColLeftIncreasing(content: TableContent, area: Rect, c1: nat, c2: nat)
    requires RenderSafe(content, area) && c1 < c2
    ensures ColLeft(content, area, c1) < ColLeft(content, area, c2)
    decreases c2
  {
    if c1 < c2 - 1 {
      ColLeftIncreasing(content, area, c1, c2 - 1);
    }
  }

  /** Rows further down start strictly further down. */
  lemma {:induction false} RowTopIncreasing(content: TableContent, area: Rect, r1: nat, r2: nat)
    requires RenderSafe(content, area) && r1 < r2
    ensures RowTop(content, area, r1) < RowTop(content, area, r2)
    decreases r2
  {
    if r1 < r2 - 1 {
      RowTopIncreasing(content, area, r1, r2 - 1);
    }
  }

  /** `w` is a write of logical cell (`row`, `col`), which the walk reaches. */
  predicate WriteOf(content: TableContent, area: Rect, row: nat, col: nat, w: Write)
    requires RenderSafe(content, area)
  {
    Visible(content, area, row, col) && w in CellWrites(content, area, row, col)
  }

  lemma {:induction false} RowCellsMembers(content: TableContent, area: Rect, row: nat, col: nat, w: Write)
    requires RenderSafe(content, area) && RowTop(content, area, row) < area.Bottom()
    ensures w in RowCells(content, area, row, col) <==>
      exists c: nat :: col <= c && WriteOf(content, area, row, c, w)
    decreases area.Right() - ColLeft(content, area, col)
  {
    if ColLeft(content, area, col) >= area.Right() {
      forall c: nat | col <= c
        ensures !WriteOf(content, area, row, c, w)
      {
        if col < c {
          ColLeftIncreasing(content, area, col, c);
        }
      }
    } else {
      RowCellsStep(content, area, row, col);
      RowCellsMembers(content, area, row, col + 1, w);
      if w in CellWrites(content, area, row, col) {
        assert WriteOf(content, area, row, col, w);
      }
      if exists c: nat :: col <= c && WriteOf(content, area, row, c, w) {
        var c: nat :| col <= c && WriteOf(content, area, row, c, w);
        if c == col {
          assert w in CellWrites(content, area, row, col);
        } else {
          assert w in RowCells(content, area, row, col + 1);
        }
      }
    }
  }

  lemma {:induction false} RowsFromMembers(content: TableContent, area: Rect, row: nat, w: Write)
    requires RenderSafe(content, area)
    ensures w in RowsFrom(content, area, row) <==>
      exists r: nat, c: nat :: row <= r && WriteOf(content, area, r, c, w)
    decreases area.Bottom() - RowTop(content, area, row)
  {
    if RowTop(content, area, row) >= area.Bottom() {
      forall r: nat, c: nat | row <= r
        ensures !WriteOf(content, area, r, c, w)
      {
        if row < r {
          RowTopIncreasing(content, area, row, r);
        }
      }
    } else {
      RowsFromMembers(content, area, row + 1, w);
      RowCellsMembers(content, area, row, 0, w);
      RowsFromStep(content, area, row);
      if w in RowCells(content, area, row, 0) {
        var c: nat :| 0 <= c && WriteOf(content, area, row, c, w);
        assert row <= row && WriteOf(content, area, row, c, w);
      }
      if exists r: nat, c: nat :: row <= r && WriteOf(content, area, r, c, w) {
        var r: nat, c: nat :| row <= r && WriteOf(content, area, r, c, w);
        if r == row {
          assert w in RowCells(content, area, row, 0);
        } else {
          assert w in RowsFrom(content, area, row + 1);
        }
      }
    }
  }

  /** A write belongs to the render exactly when it is the output of some
      logical cell that starts inside the area. */
  lemma LayoutMembers(content: TableContent, area: Rect, w: Write)
    requires RenderSafe(content, area)
    ensures w in Layout(content, area) <==> exists r: nat, c: nat :: WriteOf(content, area, r, c, w)
  {
    RowsFromMembers(content, area, 0, w);
  }

  /** Every write of a render lands inside the area. */
  lemma LayoutInArea(content: TableContent, area: Rect)
    requires RenderSafe(content, area)
    ensures forall w :: w in Layout(content, area) ==>
      area.x <= w.x < area.Right() && area.y <= w.y < area.Bottom()
  {
    forall w | w in Layout(content, area)
      ensures area.x <= w.x < area.Right() && area.y <= w.y < area.Bottom()
    {
      LayoutMembers(content, area, w);
    }
  }

  /** A write of a cell lands at that cell's place. */
  lemma WriteOfPlace(content: TableContent, area: Rect, row: nat, col: nat, w: Write)
    requires RenderSafe(content, area) && WriteOf(content, area, row, col, w)
    ensures w.x == ColLeft(content, area, col) && w.y == RowTop(content, area, row)
  {
  }

  /** Distinct logical cells start at distinct places. */
  lemma PlacesDistinct(content: TableContent, area: Rect, r1: nat, c1: nat, r2: nat, c2: nat)
    requires RenderSafe(content, area)
    requires ColLeft(content, area, c1) == ColLeft(content, area, c2)
    requires RowTop(content, area, r1) == RowTop(content, area, r2)
    ensures r1 == r2 && c1 == c2
  {
    if c1 < c2 {
      ColLeftIncreasing(content, area, c1, c2);
    } else if c2 < c1 {
      ColLeftIncreasing(content, area, c2, c1);
    }
    if r1 < r2 {
      RowTopIncreasing(content, area, r1, r2);
    } else if r2 < r1 {
      RowTopIncreasing(content, area, r2, r1);
    }
  }

  /** Only cell (`row`, `col`) writes at its own place. */
  lemma WriteAtPlace(content: TableContent, area: Rect, row: nat, col: nat, w: Write)
    requires RenderSafe(content, area) && Visible(content, area, row, col)
    requires w in Layout(content, area)
    requires w.x == ColLeft(content, area, col) && w.y == RowTop(content, area, row)
    ensures w in CellWrites(content, area, row, col)
  {
    LayoutMembers(content, area, w);
    var r: nat, c: nat :| WriteOf(content, area, r, c, w);
    WriteOfPlace(content, area, r, c, w);
    PlacesDistinct(content, area, r, c, row, col);
  }

  /** At the place of a visible logical cell, the render writes that cell's
      output and nothing else: the "**" corner, a column or row number, or the
      content cell in its selected or unselected style when it exists, and no
      write at all when the ragged row is too short. */
  lemma LayoutAt(content: TableContent, area: Rect, row: nat, col: nat, w: Write)
    requires RenderSafe(content, area) && Visible(content, area, row, col)
    ensures (w in Layout(content, area) && w.x == ColLeft(content, area, col) && w.y == RowTop(content, area, row))
            <==> w in CellWrites(content, area, row, col)
  {
    if w in CellWrites(content, area, row, col) {
      assert WriteOf(content, area, row, col, w);
      LayoutMembers(content, area, w);
    } else if w in Layout(content, area) && w.x == ColLeft(content, area, col) && w.y == RowTop(content, area, row) {
      WriteAtPlace(content, area, row, col, w);
    }
  }

  /** A render into a non-empty area starts with the "**" corner at its
      top-left. */
  lemma LayoutStartsWithCorner(content: TableContent, area: Rect)
    requires RenderSafe(content, area) && area.width > 0 && area.height > 0
    ensures |Layout(content, area)| > 0
    ensures Layout(content, area)[0] == Write(area.x, area.y, "**", HEADER_STYLE)
  {
    assert RowCells(content, area, 0, 0) == CellWrites(content, area, 0, 0) + RowCells(content, area, 0, 1);
  }
}

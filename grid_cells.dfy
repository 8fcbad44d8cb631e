/**
 * Cells and rectangles of the 12-column occupancy grid used by `gridMapper12`
 * (src/utils/grid-mapper-12.js): a rectangle covers `h` rows from `row` and
 * `w` columns from `col`, and the cells it covers are counted exactly.
 */
module GridCells {

  /** A placed rectangle: top-left cell (`row`, `col`), `w` columns wide, `h` rows high. */
  datatype Rect = Rect(row: int, col: int, w: int, h: int)

  predicate Covers(rect: Rect, i: int, j: int) {
    rect.row <= i < rect.row + rect.h && rect.col <= j < rect.col + rect.w
  }

  /** Two rectangles share a cell, stated on their row and column intervals. */
  predicate Overlap(a: Rect, b: Rect) {
    && a.row < b.row + b.h && b.row < a.row + a.h
    && a.col < b.col + b.w && b.col < a.col + a.w
  }

  ghost function RectCells(rect: Rect): set<(int, int)> {
    set i, j | rect.row <= i < rect.row + rect.h && rect.col <= j < rect.col + rect.w :: (i, j)
  }

  ghost function RowCells(i: int, col: int, w: int): set<(int, int)> {
    set j | col <= j < col + w :: (i, j)
  }

  lemma {:induction false} RowCellsCount(i: int, col: int, w: nat)
    ensures |RowCells(i, col, w)| == w
  {
    if w > 0 {
      RowCellsCount(i, col, w - 1);
      assert RowCells(i, col, w) == RowCells(i, col, w - 1) + {(i, col + w - 1)};
      assert (i, col + w - 1) !in RowCells(i, col, w - 1);
    } else {
      assert RowCells(i, col, w) == {};
    }
  }

  /** The rectangle one row shorter, from the same top-left cell. */
  function Shorter(rect: Rect): Rect {
    Rect(rect.row, rect.col, rect.w, rect.h - 1)
  }

  /** A rectangle's cells are those of its first `h - 1` rows and those of its last row. */
  lemma SplitLastRow(rect: Rect)
    requires rect.h > 0
    ensures RectCells(rect) == RectCells(Shorter(rect)) + RowCells(rect.row + rect.h - 1, rect.col, rect.w)
    ensures RectCells(Shorter(rect)) !! RowCells(rect.row + rect.h - 1, rect.col, rect.w)
  {
    var last := rect.row + rect.h - 1;
    forall c | c in RectCells(rect)
      ensures c in RectCells(Shorter(rect)) || c in RowCells(last, rect.col, rect.w)
    {
      if c.0 == last {
        assert c == (last, c.1);
      }
    }
  }

  lemma MulPred(w: int, h: int)
    ensures w * h == w * (h - 1) + w
  {
  }

  /** A `w` by `h` rectangle covers exactly `w * h` cells. */
  lemma {:induction false} RectCellsCount(rect: Rect)
    requires rect.w >= 0 && rect.h >= 0
    ensures |RectCells(rect)| == rect.w * rect.h
    decreases rect.h
  {
    if rect.h == 0 {
      assert RectCells(rect) == {};
    } else {
      var upper := RectCells(Shorter(rect));
      var last := RowCells(rect.row + rect.h - 1, rect.col, rect.w);
      RectCellsCount(Shorter(rect));
      RowCellsCount(rect.row + rect.h - 1, rect.col, rect.w);
      SplitLastRow(rect);
      assert |upper + last| == |upper| + |last|;
      MulPred(rect.w, rect.h);
    }
  }

  /** Non-empty rectangles without a common cell do not overlap. */
  lemma DisjointMeansNoOverlap(a: Rect, b: Rect)
    requires a.w > 0 && a.h > 0 && b.w > 0 && b.h > 0
    requires RectCells(a) !! RectCells(b)
    ensures !Overlap(a, b)
  {
    var i := if a.row < b.row then b.row else a.row;
    var j := if a.col < b.col then b.col else a.col;
    assert Overlap(a, b) ==> (i, j) in RectCells(a) && (i, j) in RectCells(b);
  }
}

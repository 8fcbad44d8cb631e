/**
 * `gridMapper12` (src/utils/grid-mapper-12.js): first-fit packing of article
 * rectangles into a boolean occupancy matrix of 12 columns and `totalRows`
 * rows. Each article's hierarchy and rounded area share of 144 cells are given
 * as functions of its score (the z-score and ratio arithmetic on floats is not
 * modelled); everything from the minimum areas on is.
 */
module GridPacking {
  import opened Wrappers
  import opened Scoring
  import opened Sorting
  import opened Sequences
  import opened Ranking
  import opened GridCells

  /** The fixed number of columns of the occupancy matrix. */
  const Width := 12

  // ---------------------------------------------------------------------------
  // Area assignment

  /** The guaranteed area per hierarchy level: 24 cells (6x4) on top, 16 (4x4) in the middle, else 8 (4x2). */
  function MinArea(hierarchy: int): (a: int)
    ensures a == 24 || a == 16 || a == 8
    ensures a == 24 <==> hierarchy == 1
    ensures a == 16 <==> hierarchy == 2
  {
    if hierarchy == 1 then 24 else if hierarchy == 2 then 16 else 8
  }

  /** `Math.max(minArea, Math.round(rawArea))`, with the rounded share given. */
  function BaseArea(hierarchy: int, rounded: int): (a: int)
    ensures a >= MinArea(hierarchy) && a >= rounded
    ensures a == MinArea(hierarchy) || a == rounded
  {
    if rounded > MinArea(hierarchy) then rounded else MinArea(hierarchy)
  }

  /**
   * `Math.max(12, Math.ceil(total / 12))`: the fewest rows, and at least 12,
   * whose cells hold the total area.
   */
  function TotalRows(total: int): (rows: nat)
    ensures rows >= 12
    ensures rows * Width >= total
    ensures rows == 12 || (rows - 1) * Width < total
  {
    if total <= 0 then 12
    else
      CeilDivIsCeiling(total, Width);
      var q := CeilDiv(total, Width);
      if q > 12 then q else 12
  }

  // ---------------------------------------------------------------------------
  // Candidate shapes

  /** A candidate rectangle shape, `w` columns by `h` rows. */
  datatype Shape = Shape(w: int, h: int)

  /** An exact quotient multiplies back, and is positive for a positive area. */
  lemma ExactQuotient(area: int, w: int)
    requires w > 0 && area % w == 0
    ensures w * (area / w) == area
    ensures area > 0 ==> area / w >= 1
  {
    assert area == w * (area / w) + area % w;
  }

  /**
   * The candidates collected once the widths above `w` have been tried: every
   * dividing width above `w` once, widest first, each with its exact height.
   */
  ghost predicate CandidatesAbove(cands: seq<Shape>, area: int, w: int) {
    && 0 <= w
    && (forall k :: 0 <= k < |cands| ==>
          w < cands[k].w <= Width && area % cands[k].w == 0 && cands[k].h == area / cands[k].w)
    && (forall k, l :: 0 <= k < l < |cands| ==> cands[k].w > cands[l].w)
    && (forall v :: w < v <= Width && area % v == 0 ==> Shape(v, area / v) in cands)
  }

  /** Trying width `w` keeps the candidates complete down to `w`. */
  lemma CandidateStep(cands: seq<Shape>, area: int, w: int)
    requires 1 <= w <= Width && CandidatesAbove(cands, area, w)
    ensures CandidatesAbove(if area % w == 0 then cands + [Shape(w, area / w)] else cands, area, w - 1)
  {
  }

  /** Once every width has been tried, the candidates are the exact shapes, ending with the 1-wide one. */
  lemma CandidatesDone(cands: seq<Shape>, area: int)
    requires CandidatesAbove(cands, area, 0)
    ensures forall k :: 0 <= k < |cands| ==> 1 <= cands[k].w <= Width && cands[k].w * cands[k].h == area
    ensures forall w :: 1 <= w <= Width ==> (area % w == 0 <==> Shape(w, area / w) in cands)
    ensures cands != [] && cands[|cands| - 1] == Shape(1, area)
    ensures area > 0 ==> forall k :: 0 <= k < |cands| ==> cands[k].h >= 1
  {
    forall k | 0 <= k < |cands|
      ensures cands[k].w * cands[k].h == area && (area > 0 ==> cands[k].h >= 1)
    {
      ExactQuotient(area, cands[k].w);
    }
    assert area % 1 == 0 && area / 1 == area;
    assert Shape(1, area) in cands;
    var k :| 0 <= k < |cands| && cands[k] == Shape(1, area);
  }

  /**
   * The exact candidates for `area`: one shape per width from 12 down to 1
   * that divides the area. The remainder test agrees with JavaScript's `%` for
   * either sign, since only a zero remainder matters.
   */
  method Candidates(area: int) returns (cands: seq<Shape>)
    ensures forall k :: 0 <= k < |cands| ==> 1 <= cands[k].w <= Width && cands[k].w * cands[k].h == area
    ensures forall k :: 0 <= k < |cands| ==> ExactWidth(area, cands[k].w) && cands[k].h == area / cands[k].w
    ensures forall k, l :: 0 <= k < l < |cands| ==> cands[k].w > cands[l].w
    ensures forall w :: 1 <= w <= Width ==> (area % w == 0 <==> Shape(w, area / w) in cands)
    ensures cands != [] && cands[|cands| - 1] == Shape(1, area)
    ensures area > 0 ==> forall k :: 0 <= k < |cands| ==> cands[k].h >= 1
  {
    cands := [];
    var w := Width;
    while w >= 1
      invariant 0 <= w <= Width
      invariant CandidatesAbove(cands, area, w)
    {
      CandidateStep(cands, area, w);
      if area % w == 0 {
        var h := area / w;
        cands := cands + [Shape(w, h)];
      }
      w := w - 1;
    }
    CandidatesDone(cands, area);
  }

  // ---------------------------------------------------------------------------
  // The occupancy matrix

  /** `rect` lies inside the matrix and every cell it covers is still free. */
  predicate Fits(grid: array2<bool>, rect: Rect)
    reads grid
  {
    && 0 <= rect.row && rect.row + rect.h <= grid.Length0
    && 0 <= rect.col && rect.col + rect.w <= grid.Length1
    && forall i, j :: rect.row <= i < rect.row + rect.h && rect.col <= j < rect.col + rect.w ==> !grid[i, j]
  }

  /** The occupied cells of the matrix. */
  ghost function Occupied(grid: array2<bool>): set<(int, int)>
    reads grid
  {
    set i, j | 0 <= i < grid.Length0 && 0 <= j < grid.Length1 && grid[i, j] :: (i, j)
  }

  /** A rectangle that fits shares no cell with the occupied ones. */
  lemma FitsIsDisjoint(grid: array2<bool>, rect: Rect)
    requires Fits(grid, rect)
    ensures RectCells(rect) !! Occupied(grid)
  {
    forall c | c in RectCells(rect)
      ensures c !in Occupied(grid)
    {
      assert !grid[c.0, c.1];
    }
  }

  /** The occupied cells after marking `rect` on top of the cells `before`. */
  lemma OccupiedGrows(grid: array2<bool>, before: set<(int, int)>, rect: Rect)
    requires 0 <= rect.row && rect.row + rect.h <= grid.Length0
    requires 0 <= rect.col && rect.col + rect.w <= grid.Length1
    requires forall c :: c in before ==> 0 <= c.0 < grid.Length0 && 0 <= c.1 < grid.Length1
    requires forall i, j :: 0 <= i < grid.Length0 && 0 <= j < grid.Length1 ==>
      (grid[i, j] <==> (i, j) in before || Covers(rect, i, j))
    ensures Occupied(grid) == before + RectCells(rect)
  {
    forall c | c in before + RectCells(rect)
      ensures c in Occupied(grid)
    {
      assert grid[c.0, c.1];
    }
  }

  /**
   * `canPlace(grid, r, c, w, h, maxRows)`: the bounds test, then a scan of the
   * covered cells that stops at the first occupied one.
   */
  method CanPlace(grid: array2<bool>, r: int, c: int, w: int, h: int, maxRows: int) returns (ok: bool)
    requires grid.Length1 == Width && maxRows == grid.Length0
    requires 0 <= r && 0 <= c
    ensures ok <==> Fits(grid, Rect(r, c, w, h))
  {
    if r + h > maxRows || c + w > Width {
      return false;
    }
    var i := r;
    while i < r + h
      invariant r <= i <= r + h || (h <= 0 && i == r)
      invariant forall i', j :: r <= i' < i && c <= j < c + w ==> !grid[i', j]
    {
      var j := c;
      while j < c + w
        invariant c <= j <= c + w || (w <= 0 && j == c)
        invariant forall j' :: c <= j' < j ==> !grid[i, j']
        invariant forall i', j' :: r <= i' < i && c <= j' < c + w ==> !grid[i', j']
      {
        if grid[i, j] {
          return false;
        }
        j := j + 1;
      }
      i := i + 1;
    }
    return true;
  }

  /**
   * `place(grid, r, c, w, h)`: marks exactly the cells of the rectangle and
   * leaves every other cell as it was.
   */
  method Place(grid: array2<bool>, r: int, c: int, w: int, h: int)
    requires 0 <= r && r + h <= grid.Length0 && 0 <= c && c + w <= grid.Length1
    modifies grid
    ensures forall i, j :: 0 <= i < grid.Length0 && 0 <= j < grid.Length1 ==>
      grid[i, j] == (old(grid[i, j]) || Covers(Rect(r, c, w, h), i, j))
    ensures Occupied(grid) == old(Occupied(grid)) + RectCells(Rect(r, c, w, h))
  {
    var i := r;
    while i < r + h
      invariant r <= i <= r + h || (h <= 0 && i == r)
      invariant forall i', j' :: 0 <= i' < grid.Length0 && 0 <= j' < grid.Length1 ==>
        grid[i', j'] == (old(grid[i', j']) || (r <= i' < i && c <= j' < c + w))
    {
      var j := c;
      while j < c + w
        invariant c <= j <= c + w || (w <= 0 && j == c)
        invariant forall i', j' :: 0 <= i' < grid.Length0 && 0 <= j' < grid.Length1 ==>
          grid[i', j'] == (old(grid[i', j']) || (r <= i' < i && c <= j' < c + w) || (i' == i && c <= j' < j))
      {
        grid[i, j] := true;
        j := j + 1;
      }
      i := i + 1;
    }
    OccupiedGrows(grid, old(Occupied(grid)), Rect(r, c, w, h));
  }

  // ---------------------------------------------------------------------------
  // First-fit search

  /** The candidate shape `s` with its top-left cell at (`r`, `c`). */
  function At(r: int, c: int, s: Shape): Rect {
    Rect(r, c, s.w, s.h)
  }

  /** The scan passes (`r`, `c`) by: the cell is taken, or no candidate fits there. */
  predicate Passed(grid: array2<bool>, cands: seq<Shape>, r: int, c: int)
    requires 0 <= r < grid.Length0 && 0 <= c < grid.Length1
    reads grid
  {
    grid[r, c] || forall k :: 0 <= k < |cands| ==> !Fits(grid, At(r, c, cands[k]))
  }

  /** (`r'`, `c'`) comes before (`r`, `c`) in row-major order. */
  predicate Earlier(r': int, c': int, r: int, c: int) {
    r' < r || (r' == r && c' < c)
  }

  /**
   * The slot the scan stops at: a free top-left cell, the first candidate in
   * list order that fits there, and every earlier cell passed by.
   */
  ghost predicate FirstFitSlot(grid: array2<bool>, cands: seq<Shape>, rect: Rect)
    reads grid
  {
    && 0 <= rect.row < grid.Length0 && 0 <= rect.col < grid.Length1
    && !grid[rect.row, rect.col]
    && Fits(grid, rect)
    && (exists k :: 0 <= k < |cands| && At(rect.row, rect.col, cands[k]) == rect
          && forall k' :: 0 <= k' < k ==> !Fits(grid, At(rect.row, rect.col, cands[k'])))
    && forall r', c' :: 0 <= r' < grid.Length0 && 0 <= c' < grid.Length1 && Earlier(r', c', rect.row, rect.col)
         ==> Passed(grid, cands, r', c')
  }

  /** The `for (const cand of candidates)` loop at one free cell: the first candidate that can be placed. */
  method FitAt(grid: array2<bool>, cands: seq<Shape>, r: int, c: int, maxRows: int) returns (found: Option<nat>)
    requires grid.Length1 == Width && maxRows == grid.Length0
    requires 0 <= r && 0 <= c
    ensures found.Some? ==> found.value < |cands| && Fits(grid, At(r, c, cands[found.value]))
    ensures found.Some? ==> forall k :: 0 <= k < found.value ==> !Fits(grid, At(r, c, cands[k]))
    ensures found.None? ==> forall k :: 0 <= k < |cands| ==> !Fits(grid, At(r, c, cands[k]))
  {
    var k := 0;
    while k < |cands|
      invariant 0 <= k <= |cands|
      invariant forall k' :: 0 <= k' < k ==> !Fits(grid, At(r, c, cands[k']))
    {
      var ok := CanPlace(grid, r, c, cands[k].w, cands[k].h, maxRows);
      if ok {
        return Some(k);
      }
      k := k + 1;
    }
    return None;
  }

  /**
   * The row-major scan for a placement: the first free cell at which some
   * candidate fits, with the first such candidate. The source marks the cells
   * inside the scan and leaves the loops at once; here the scan returns the
   * slot and the caller marks it.
   */
  method FirstFit(grid: array2<bool>, cands: seq<Shape>, totalRows: int) returns (found: Option<Rect>)
    requires grid.Length1 == Width && totalRows == grid.Length0
    ensures found.Some? ==> FirstFitSlot(grid, cands, found.value)
    ensures found.None? ==> forall r, c :: 0 <= r < totalRows && 0 <= c < Width ==> Passed(grid, cands, r, c)
  {
    found := None;
    var r := 0;
    while r < totalRows && found.None?
      invariant 0 <= r <= totalRows
      invariant found.Some? ==> FirstFitSlot(grid, cands, found.value)
      invariant found.None? ==> forall r', c' :: 0 <= r' < r && 0 <= c' < Width ==> Passed(grid, cands, r', c')
    {
      var c := 0;
      while c < Width && found.None?
        invariant 0 <= c <= Width
        invariant found.Some? ==> FirstFitSlot(grid, cands, found.value)
        invariant found.None? ==>
          forall r', c' :: 0 <= r' < totalRows && 0 <= c' < Width && Earlier(r', c', r, c) ==> Passed(grid, cands, r', c')
      {
        if !grid[r, c] {
          var k := FitAt(grid, cands, r, c, totalRows);
          if k.Some? {
            found := Some(At(r, c, cands[k.value]));
          }
        }
        c := c + 1;
      }
      r := r + 1;
    }
  }

  /** The fallback scan: the first free cell in row-major order, if any. */
  method FirstFree(grid: array2<bool>, totalRows: int) returns (cell: Option<(int, int)>)
    requires grid.Length1 == Width && totalRows == grid.Length0
    ensures cell.Some? ==> 0 <= cell.value.0 < totalRows && 0 <= cell.value.1 < Width
    ensures cell.Some? ==> !grid[cell.value.0, cell.value.1]
    ensures cell.Some? ==>
      forall r, c :: 0 <= r < totalRows && 0 <= c < Width && Earlier(r, c, cell.value.0, cell.value.1) ==> grid[r, c]
    ensures cell.None? ==> forall r, c :: 0 <= r < totalRows && 0 <= c < Width ==> grid[r, c]
  {
    var r := 0;
    while r < totalRows
      invariant 0 <= r <= totalRows
      invariant forall r', c' :: 0 <= r' < r && 0 <= c' < Width ==> grid[r', c']
    {
      var c := 0;
      while c < Width
        invariant 0 <= c <= Width
        invariant forall r', c' :: 0 <= r' < totalRows && 0 <= c' < Width && Earlier(r', c', r, c) ==> grid[r', c']
      {
        if !grid[r, c] {
          return Some((r, c));
        }
        c := c + 1;
      }
      r := r + 1;
    }
    return None;
  }

  // ---------------------------------------------------------------------------
  // The first-fit rule, on the occupied cells

  /** A width of an exact shape for `area`: 1 to 12 columns, dividing the area. */
  predicate ExactWidth(area: int, w: int) {
    1 <= w <= Width && area % w == 0
  }

  /** The exact shape of width `w` for `area`, with its top-left cell at (`r`, `c`). */
  function ShapeAt(r: int, c: int, area: int, w: int): Rect
    requires w != 0
  {
    Rect(r, c, w, area / w)
  }

  /** A cell of the matrix of `rows` rows and 12 columns. */
  predicate InGrid(rows: int, r: int, c: int) {
    0 <= r < rows && 0 <= c < Width
  }

  /** `rect` lies inside the matrix of `rows` rows and covers none of the cells `taken`. */
  ghost predicate FreeIn(taken: set<(int, int)>, rows: int, rect: Rect) {
    && 0 <= rect.row && rect.row + rect.h <= rows
    && 0 <= rect.col && rect.col + rect.w <= Width
    && RectCells(rect) !! taken
  }

  /** No exact shape for `area` fits with its top-left cell at (`r`, `c`). */
  ghost predicate NoShapeFits(taken: set<(int, int)>, rows: int, area: int, r: int, c: int) {
    forall w :: ExactWidth(area, w) ==> !FreeIn(taken, rows, ShapeAt(r, c, area, w))
  }

  /**
   * Where the scan places an article: at the first free cell in row-major
   * order where an exact shape fits, the widest exact shape that fits there.
   */
  ghost predicate ExactPlacement(taken: set<(int, int)>, rows: int, area: int, rect: Rect) {
    && InGrid(rows, rect.row, rect.col) && (rect.row, rect.col) !in taken
    && ExactWidth(area, rect.w) && rect == ShapeAt(rect.row, rect.col, area, rect.w)
    && FreeIn(taken, rows, rect)
    && (forall w :: ExactWidth(area, w) && w > rect.w ==> !FreeIn(taken, rows, ShapeAt(rect.row, rect.col, area, w)))
    && (forall r, c :: InGrid(rows, r, c) && Earlier(r, c, rect.row, rect.col) && (r, c) !in taken
          ==> NoShapeFits(taken, rows, area, r, c))
  }

  /** The fallback: no exact shape fits at any free cell, and the slot is the first free cell, 1x1. */
  ghost predicate SingleCellPlacement(taken: set<(int, int)>, rows: int, area: int, rect: Rect) {
    && (forall r, c :: InGrid(rows, r, c) && (r, c) !in taken ==> NoShapeFits(taken, rows, area, r, c))
    && rect.w == 1 && rect.h == 1
    && InGrid(rows, rect.row, rect.col) && (rect.row, rect.col) !in taken
    && (forall r, c :: InGrid(rows, r, c) && Earlier(r, c, rect.row, rect.col) ==> (r, c) in taken)
  }

  /** The slot `gridMapper12` gives an article of base area `area` when the cells `taken` are occupied. */
  ghost predicate FirstFitRule(taken: set<(int, int)>, rows: int, area: int, rect: Rect) {
    ExactPlacement(taken, rows, area, rect) || SingleCellPlacement(taken, rows, area, rect)
  }

  /** The rule leaves no choice: at most one slot meets it. */
  lemma FirstFitRuleUnique(taken: set<(int, int)>, rows: int, area: int, a: Rect, b: Rect)
    requires FirstFitRule(taken, rows, area, a) && FirstFitRule(taken, rows, area, b)
    ensures a == b
  {
    if ExactPlacement(taken, rows, area, a) {
      assert FreeIn(taken, rows, ShapeAt(a.row, a.col, area, a.w));
    }
    if ExactPlacement(taken, rows, area, b) {
      assert FreeIn(taken, rows, ShapeAt(b.row, b.col, area, b.w));
    }
  }

  /** On an empty matrix, an area of whole 12-cell rows that the matrix can hold goes to the top-left corner, full width. */
  lemma EmptyMatrixFullWidth(rows: int, area: int)
    requires 0 < area && area % Width == 0 && area / Width <= rows
    ensures forall rect :: FirstFitRule({}, rows, area, rect) ==> rect == Rect(0, 0, Width, area / Width)
  {
    var top := Rect(0, 0, Width, area / Width);
    assert ExactPlacement({}, rows, area, top);
    forall rect | FirstFitRule({}, rows, area, rect)
      ensures rect == top
    {
      FirstFitRuleUnique({}, rows, area, rect, top);
    }
  }

  /** `Fits` on the matrix is `FreeIn` on its occupied cells. */
  lemma FitsIsFreeIn(grid: array2<bool>, rect: Rect)
    requires grid.Length1 == Width
    ensures Fits(grid, rect) <==> FreeIn(Occupied(grid), grid.Length0, rect)
  {
    if Fits(grid, rect) {
      FitsIsDisjoint(grid, rect);
    }
    if FreeIn(Occupied(grid), grid.Length0, rect) {
      forall i, j | rect.row <= i < rect.row + rect.h && rect.col <= j < rect.col + rect.w
        ensures !grid[i, j]
      {
        assert (i, j) in RectCells(rect);
      }
    }
  }

  /** Where every candidate was tried, no exact shape fits. */
  lemma PassedMeansNoShape(grid: array2<bool>, cands: seq<Shape>, area: int, r: int, c: int)
    requires grid.Length1 == Width && InGrid(grid.Length0, r, c)
    requires forall w :: 1 <= w <= Width ==> (area % w == 0 <==> Shape(w, area / w) in cands)
    requires Passed(grid, cands, r, c) && !grid[r, c]
    ensures NoShapeFits(Occupied(grid), grid.Length0, area, r, c)
  {
    forall w | ExactWidth(area, w)
      ensures !FreeIn(Occupied(grid), grid.Length0, ShapeAt(r, c, area, w))
    {
      var k :| 0 <= k < |cands| && cands[k] == Shape(w, area / w);
      assert At(r, c, cands[k]) == ShapeAt(r, c, area, w);
      FitsIsFreeIn(grid, ShapeAt(r, c, area, w));
    }
  }

  /** The slot the scan stops at meets the rule, on the matrix as it was before placing. */
  lemma ScanIsExactPlacement(grid: array2<bool>, cands: seq<Shape>, area: int, rect: Rect)
    requires grid.Length1 == Width
    requires forall k :: 0 <= k < |cands| ==> ExactWidth(area, cands[k].w) && cands[k].h == area / cands[k].w
    requires forall k, l :: 0 <= k < l < |cands| ==> cands[k].w > cands[l].w
    requires forall w :: 1 <= w <= Width ==> (area % w == 0 <==> Shape(w, area / w) in cands)
    requires FirstFitSlot(grid, cands, rect)
    ensures ExactPlacement(Occupied(grid), grid.Length0, area, rect)
  {
    var taken := Occupied(grid);
    var k :| 0 <= k < |cands| && At(rect.row, rect.col, cands[k]) == rect
      && forall k' :: 0 <= k' < k ==> !Fits(grid, At(rect.row, rect.col, cands[k']));
    FitsIsFreeIn(grid, rect);
    forall w | ExactWidth(area, w) && w > rect.w
      ensures !FreeIn(taken, grid.Length0, ShapeAt(rect.row, rect.col, area, w))
    {
      var k' :| 0 <= k' < |cands| && cands[k'] == Shape(w, area / w);
      assert k' < k;
      assert At(rect.row, rect.col, cands[k']) == ShapeAt(rect.row, rect.col, area, w);
      FitsIsFreeIn(grid, ShapeAt(rect.row, rect.col, area, w));
    }
    forall r, c | InGrid(grid.Length0, r, c) && Earlier(r, c, rect.row, rect.col) && (r, c) !in taken
      ensures NoShapeFits(taken, grid.Length0, area, r, c)
    {
      PassedMeansNoShape(grid, cands, area, r, c);
    }
  }

  /** When the scan passed every cell, the first free cell as a 1x1 slot is the fallback of the rule. */
  lemma FallbackIsSingleCell(grid: array2<bool>, cands: seq<Shape>, area: int, r: int, c: int)
    requires grid.Length1 == Width
    requires forall w :: 1 <= w <= Width ==> (area % w == 0 <==> Shape(w, area / w) in cands)
    requires forall r', c' :: 0 <= r' < grid.Length0 && 0 <= c' < Width ==> Passed(grid, cands, r', c')
    requires 0 <= r < grid.Length0 && 0 <= c < Width && !grid[r, c]
    requires forall r', c' :: 0 <= r' < grid.Length0 && 0 <= c' < Width && Earlier(r', c', r, c) ==> grid[r', c']
    ensures SingleCellPlacement(Occupied(grid), grid.Length0, area, Rect(r, c, 1, 1))
  {
    var taken := Occupied(grid);
    forall r', c' | InGrid(grid.Length0, r', c') && (r', c') !in taken
      ensures NoShapeFits(taken, grid.Length0, area, r', c')
    {
      PassedMeansNoShape(grid, cands, area, r', c');
    }
  }

  // ---------------------------------------------------------------------------
  // Placing one article

  /** A non-empty rectangle inside a matrix of `rows` rows and 12 columns. */
  predicate InMatrix(rows: int, rect: Rect) {
    && 1 <= rect.w && 1 <= rect.h
    && 0 <= rect.row && rect.row + rect.h <= rows
    && 0 <= rect.col && rect.col + rect.w <= Width
  }

  /** The slots lie in a matrix of `rows` rows, within the cells `cells`, and share no cell. */
  ghost predicate SlotsWithin(slots: seq<Rect>, cells: set<(int, int)>, rows: int) {
    && (forall k :: 0 <= k < |slots| ==> InMatrix(rows, slots[k]))
    && (forall k :: 0 <= k < |slots| ==> RectCells(slots[k]) <= cells)
    && (forall k, l :: 0 <= k < l < |slots| ==> RectCells(slots[k]) !! RectCells(slots[l]))
  }

  /** The slots handed out so far lie in the matrix, are marked occupied and share no cell. */
  ghost predicate Layout(grid: array2<bool>, slots: seq<Rect>)
    reads grid
  {
    SlotsWithin(slots, Occupied(grid), grid.Length0)
  }

  /** Adding a rectangle on free cells keeps the slots apart and adds exactly `w * h` cells. */
  lemma SlotsExtend(slots: seq<Rect>, cells: set<(int, int)>, rows: int, rect: Rect)
    requires SlotsWithin(slots, cells, rows)
    requires InMatrix(rows, rect) && RectCells(rect) !! cells
    ensures SlotsWithin(slots + [rect], cells + RectCells(rect), rows)
    ensures |cells + RectCells(rect)| == |cells| + rect.w * rect.h
  {
    RectCellsCount(rect);
    var t := slots + [rect];
    forall k, l | 0 <= k < l < |t|
      ensures RectCells(t[k]) !! RectCells(t[l])
    {
      if l == |slots| {
        assert RectCells(t[k]) <= cells;
      }
    }
  }

  /** A matrix with every cell occupied has `rows * 12` occupied cells. */
  lemma FullMatrix(grid: array2<bool>)
    requires grid.Length1 == Width
    requires forall r, c :: 0 <= r < grid.Length0 && 0 <= c < Width ==> grid[r, c]
    ensures |Occupied(grid)| == grid.Length0 * Width
  {
    var all := Rect(0, 0, Width, grid.Length0);
    forall cell | cell in RectCells(all)
      ensures cell in Occupied(grid)
    {
      assert grid[cell.0, cell.1];
    }
    assert Occupied(grid) == RectCells(all);
    RectCellsCount(all);
  }

  /**
   * One pass of the `forEach` body of `gridMapper12` for an article of base
   * area `area`: the exact candidates, the first-fit scan and `place`, or
   * else the first free cell as a 1x1 slot: the slot of `FirstFitRule` on
   * the cells occupied before. No slot (no grid class) only when every cell
   * is already occupied.
   */
  method PlaceTile(grid: array2<bool>, area: int, ghost slots: seq<Rect>) returns (slot: Option<Rect>)
    requires grid.Length1 == Width && area > 0
    requires Layout(grid, slots)
    modifies grid
    ensures slot.Some? ==> Layout(grid, slots + [slot.value])
    ensures slot.Some? ==> RectCells(slot.value) !! old(Occupied(grid))
    ensures slot.Some? ==> Occupied(grid) == old(Occupied(grid)) + RectCells(slot.value)
    ensures slot.Some? ==> slot.value.w * slot.value.h == area || (slot.value.w == 1 && slot.value.h == 1)
    ensures slot.Some? ==> FirstFitRule(old(Occupied(grid)), grid.Length0, area, slot.value)
    ensures slot.None? ==> Layout(grid, slots) && old(|Occupied(grid)|) == grid.Length0 * Width
    ensures |Occupied(grid)| <= old(|Occupied(grid)|) + area
  {
    ghost var before := Occupied(grid);
    var cands := Candidates(area);
    var found := FirstFit(grid, cands, grid.Length0);
    if found.Some? {
      var rect := found.value;
      ScanIsExactPlacement(grid, cands, area, rect);
      FitsIsDisjoint(grid, rect);
      Place(grid, rect.row, rect.col, rect.w, rect.h);
      SlotsExtend(slots, before, grid.Length0, rect);
      slot := found;
    } else {
      slot := PlaceFirstFree(grid, area, cands, slots);
    }
  }

  /**
   * The `if (!placed)` block of the `forEach` body: when no exact shape fits
   * anywhere, the first free cell becomes a 1x1 slot, the fallback of
   * `FirstFitRule`. No slot only when every cell is already occupied.
   */
  method PlaceFirstFree(grid: array2<bool>, area: int, ghost cands: seq<Shape>, ghost slots: seq<Rect>)
    returns (slot: Option<Rect>)
    requires grid.Length1 == Width && area > 0
    requires Layout(grid, slots)
    requires forall w :: 1 <= w <= Width ==> (area % w == 0 <==> Shape(w, area / w) in cands)
    requires forall r, c :: 0 <= r < grid.Length0 && 0 <= c < Width ==> Passed(grid, cands, r, c)
    modifies grid
    ensures slot.Some? ==> Layout(grid, slots + [slot.value])
    ensures slot.Some? ==> RectCells(slot.value) !! old(Occupied(grid))
    ensures slot.Some? ==> Occupied(grid) == old(Occupied(grid)) + RectCells(slot.value)
    ensures slot.Some? ==> slot.value.w == 1 && slot.value.h == 1
    ensures slot.Some? ==> SingleCellPlacement(old(Occupied(grid)), grid.Length0, area, slot.value)
    ensures slot.None? ==> Layout(grid, slots) && old(|Occupied(grid)|) == grid.Length0 * Width
    ensures |Occupied(grid)| <= old(|Occupied(grid)|) + area
  {
    ghost var before := Occupied(grid);
    var cell := FirstFree(grid, grid.Length0);
    if cell.Some? {
      var r, c := cell.value.0, cell.value.1;
      var single := Rect(r, c, 1, 1);
      FallbackIsSingleCell(grid, cands, area, r, c);
      assert RectCells(single) == {(r, c)};
      grid[r, c] := true;
      OccupiedGrows(grid, before, single);
      SlotsExtend(slots, before, grid.Length0, single);
      slot := Some(single);
    } else {
      FullMatrix(grid);
      slot := None;
    }
  }

  // ---------------------------------------------------------------------------
  // The mapper

  /**
   * An output record: the article with `_score`, `_hierarchy`, `_baseArea` and
   * its slot. The slot stands for `_gridClass` (`col-span-w row-span-h
   * col-start-(col+1) row-start-(row+1)`); `None` is an article left without one.
   */
  datatype Tile = Tile(article: Article, score: int, hierarchy: int, baseArea: int, slot: Option<Rect>)

  function BaseAreaOf(t: Tile): int {
    t.baseArea
  }

  /** A tile's slot, or an empty rectangle for a tile left without one. */
  function SlotOf(t: Tile): Rect {
    t.slot.GetOr(Rect(0, 0, 0, 0))
  }

  /** The cells the slots of `r` cover. */
  ghost function TilesCells(r: seq<Tile>): set<(int, int)> {
    if r == [] then {} else TilesCells(r[..|r| - 1]) + RectCells(SlotOf(r[|r| - 1]))
  }

  /** Each tile sits where the first-fit rule puts it, given the tiles placed before it. */
  ghost predicate FirstFitLayout(r: seq<Tile>, rows: int) {
    forall i {:trigger TilesCells(r[..i])} :: 0 <= i < |r| ==> FirstFitRule(TilesCells(r[..i]), rows, r[i].baseArea, SlotOf(r[i]))
  }

  /** Placing one more tile by the rule extends a first-fit layout by the tile's cells. */
  lemma FirstFitLayoutExtend(r: seq<Tile>, t: Tile, rows: int)
    requires FirstFitLayout(r, rows)
    requires FirstFitRule(TilesCells(r), rows, t.baseArea, SlotOf(t))
    ensures FirstFitLayout(r + [t], rows)
    ensures TilesCells(r + [t]) == TilesCells(r) + RectCells(SlotOf(t))
  {
    var r' := r + [t];
    assert r'[..|r|] == r;
    forall i | 0 <= i < |r'|
      ensures FirstFitRule(TilesCells(r'[..i]), rows, r'[i].baseArea, SlotOf(r'[i]))
    {
      if i < |r| {
        assert r'[..i] == r[..i];
      }
    }
  }

  /** A prefix of a first-fit layout is one. */
  lemma FirstFitLayoutPrefix(r: seq<Tile>, n: nat, rows: int)
    requires n <= |r| && FirstFitLayout(r, rows)
    ensures FirstFitLayout(r[..n], rows)
  {
    forall i | 0 <= i < n
      ensures FirstFitRule(TilesCells(r[..n][..i]), rows, r[..n][i].baseArea, SlotOf(r[..n][i]))
    {
      assert r[..n][..i] == r[..i];
    }
  }

  /** Base areas and the row count fix the whole layout: two first-fit layouts of the same areas agree slot by slot. */
  lemma {:induction false} FirstFitLayoutUnique(a: seq<Tile>, b: seq<Tile>, rows: int)
    requires |a| == |b|
    requires forall i :: 0 <= i < |a| ==> a[i].baseArea == b[i].baseArea
    requires FirstFitLayout(a, rows) && FirstFitLayout(b, rows)
    ensures forall i :: 0 <= i < |a| ==> SlotOf(a[i]) == SlotOf(b[i])
    ensures TilesCells(a) == TilesCells(b)
  {
    if a != [] {
      var n := |a| - 1;
      FirstFitLayoutPrefix(a, n, rows);
      FirstFitLayoutPrefix(b, n, rows);
      FirstFitLayoutUnique(a[..n], b[..n], rows);
      var taken := TilesCells(a[..n]);
      assert FirstFitRule(taken, rows, a[n].baseArea, SlotOf(a[n]));
      assert FirstFitRule(TilesCells(b[..n]), rows, b[n].baseArea, SlotOf(b[n]));
      FirstFitRuleUnique(taken, rows, a[n].baseArea, SlotOf(a[n]), SlotOf(b[n]));
      forall i | 0 <= i < |a|
        ensures SlotOf(a[i]) == SlotOf(b[i])
      {
        if i < n {
          assert a[..n][i] == a[i] && b[..n][i] == b[i];
        }
      }
    }
  }

  /**
   * The first tile of a first-fit layout whose base area fills whole rows of
   * the matrix starts at the top-left corner, full width.
   */
  lemma FirstTileFullWidth(r: seq<Tile>, rows: int)
    requires FirstFitLayout(r, rows) && |r| > 0
    requires 0 < r[0].baseArea && r[0].baseArea % Width == 0 && r[0].baseArea / Width <= rows
    ensures SlotOf(r[0]) == Rect(0, 0, Width, r[0].baseArea / Width)
  {
    assert TilesCells(r[..0]) == {};
    EmptyMatrixFullWidth(rows, r[0].baseArea);
  }

  /** Filter out pages, score, and sort by score descending (stable, so ties keep their order). */
  function ScoreRanked(articles: seq<Article>): (r: seq<Scored>)
    ensures |r| == CountNonPages(articles)
    ensures Sorted(r, ScoreLe)
    ensures multiset(r) == multiset(WithScores(NonPages(articles)))
  {
    ScoreLeIsTotalPreorder();
    NonPagesLength(articles);
    InsertionSort(WithScores(NonPages(articles)), ScoreLe)
  }

  /** The second `sort` by score, on the already ranked list, leaves it as it is. */
  function ResortByScore(scored: seq<Scored>): (r: seq<Scored>)
    requires Sorted(scored, ScoreLe)
    ensures r == scored
  {
    ScoreLeIsTotalPreorder();
    InsertionSortOfSorted(scored, ScoreLe);
    InsertionSort(scored, ScoreLe)
  }

  /** A prefix of a sequence of non-negative numbers sums to at most the whole. */
  lemma {:induction false} SumPrefixBound(s: seq<int>, k: nat)
    requires k <= |s|
    requires forall i :: 0 <= i < |s| ==> s[i] >= 0
    ensures 0 <= Sum(s[..k]) <= Sum(s)
  {
    if k < |s| {
      var n := |s| - 1;
      assert s[..n][..k] == s[..k];
      SumPrefixBound(s[..n], k);
    } else {
      assert s[..k] == s;
      if s != [] {
        SumPrefixBound(s[..|s| - 1], |s| - 1);
      }
    }
  }

  lemma SumPrefixStep(s: seq<int>, k: nat)
    requires k < |s|
    ensures Sum(s[..k + 1]) == Sum(s[..k]) + s[k]
  {
    assert s[..k + 1][..k] == s[..k];
  }

  /** Step 2 of `gridMapper12`: each article's base area, accumulated into `totalAssignedArea`. */
  method AssignAreas(scored: seq<Scored>, hierarchyOf: int -> int, roundedAreaOf: int -> int)
    returns (areas: seq<int>, total: int)
    ensures |areas| == |scored|
    ensures forall i :: 0 <= i < |scored| ==>
      areas[i] == BaseArea(hierarchyOf(scored[i].score), roundedAreaOf(scored[i].score))
    ensures forall i :: 0 <= i < |scored| ==> areas[i] >= 8
    ensures total == Sum(areas) && total >= 8 * |scored|
  {
    areas := [];
    total := 0;
    var k := 0;
    while k < |scored|
      invariant 0 <= k <= |scored| && |areas| == k
      invariant forall i :: 0 <= i < k ==>
        areas[i] == BaseArea(hierarchyOf(scored[i].score), roundedAreaOf(scored[i].score))
      invariant total == Sum(areas) && total >= 8 * k
    {
      var a := BaseArea(hierarchyOf(scored[k].score), roundedAreaOf(scored[k].score));
      SumAppend(areas, a);
      areas := areas + [a];
      total := total + a;
      k := k + 1;
    }
  }

  /**
   * The packing after `k` articles: their tiles are in `r`, their slots lie in
   * the matrix apart from each other, and the matrix has at most as many
   * occupied cells as their base areas add up to.
   */
  ghost predicate TilesPlaced(grid: array2<bool>, scored: seq<Scored>, hierarchyOf: int -> int, areas: seq<int>,
                              r: seq<Tile>, slots: seq<Rect>, k: int)
    reads grid
  {
    && 0 <= k <= |scored| == |areas| && |r| == k && |slots| == k
    && Layout(grid, slots)
    && Occupied(grid) == TilesCells(r)
    && FirstFitLayout(r, grid.Length0)
    && |Occupied(grid)| <= Sum(areas[..k])
    && (forall i :: 0 <= i < k ==>
          r[i] == Tile(scored[i].article, scored[i].score, hierarchyOf(scored[i].score), areas[i], Some(slots[i])))
    && (forall i :: 0 <= i < k ==> slots[i].w * slots[i].h == areas[i] || (slots[i].w == 1 && slots[i].h == 1))
  }

  /** One article of the `forEach`: place it and push its record onto the result. */
  method PackNext(grid: array2<bool>, scored: seq<Scored>, hierarchyOf: int -> int, areas: seq<int>,
                  r: seq<Tile>, ghost slots: seq<Rect>, k: nat)
    returns (r': seq<Tile>, ghost slots': seq<Rect>)
    requires grid.Length1 == Width && k < |scored|
    requires forall i :: 0 <= i < |areas| ==> areas[i] > 0
    requires Sum(areas) <= grid.Length0 * Width
    requires TilesPlaced(grid, scored, hierarchyOf, areas, r, slots, k)
    modifies grid
    ensures TilesPlaced(grid, scored, hierarchyOf, areas, r', slots', k + 1)
  {
    SumPrefixBound(areas, k + 1);
    SumPrefixStep(areas, k);
    assert |Occupied(grid)| + areas[k] <= Sum(areas[..k + 1]) <= grid.Length0 * Width;
    var slot := PlaceTile(grid, areas[k], slots);
    if slot.None? {
      assert false;
    }
    assert |Occupied(grid)| <= Sum(areas[..k + 1]);
    r' := r + [Tile(scored[k].article, scored[k].score, hierarchyOf(scored[k].score), areas[k], slot)];
    slots' := slots + [slot.value];
    FirstFitLayoutExtend(r, r'[k], grid.Length0);
    forall i | 0 <= i < k + 1
      ensures r'[i] == Tile(scored[i].article, scored[i].score, hierarchyOf(scored[i].score), areas[i], Some(slots'[i]))
      ensures slots'[i].w * slots'[i].h == areas[i] || (slots'[i].w == 1 && slots'[i].h == 1)
    {
      if i < k {
        assert r'[i] == r[i] && slots'[i] == slots[i];
      }
    }
  }

  /**
   * Step 3 of `gridMapper12`: the `forEach` over the sorted articles on a
   * fresh `totalRows` x 12 matrix. When the base areas fit the matrix, every
   * article gets a slot inside it, and no two slots share a cell.
   */
  method PackTiles(scored: seq<Scored>, hierarchyOf: int -> int, areas: seq<int>, totalRows: nat)
    returns (r: seq<Tile>)
    requires |areas| == |scored|
    requires forall i :: 0 <= i < |areas| ==> areas[i] > 0
    requires Sum(areas) <= totalRows * Width
    ensures |r| == |scored|
    ensures forall i :: 0 <= i < |r| ==>
      r[i].article == scored[i].article && r[i].score == scored[i].score
      && r[i].hierarchy == hierarchyOf(scored[i].score) && r[i].baseArea == areas[i]
    ensures forall i :: 0 <= i < |r| ==> r[i].slot.Some? && InMatrix(totalRows, r[i].slot.value)
    ensures forall i :: 0 <= i < |r| ==>
      var s := r[i].slot.GetOr(Rect(0, 0, 0, 0)); s.w * s.h == areas[i] || (s.w == 1 && s.h == 1)
    ensures forall i, j :: 0 <= i < j < |r| && r[i].slot.Some? && r[j].slot.Some? ==>
      RectCells(r[i].slot.value) !! RectCells(r[j].slot.value)
    ensures FirstFitLayout(r, totalRows)
  {
    var grid := new bool[totalRows, Width]((i, j) => false);
    r := [];
    ghost var slots: seq<Rect> := [];
    TilesStart(grid, scored, hierarchyOf, areas);
    var k := 0;
    while k < |scored|
      invariant 0 <= k <= |scored|
      invariant grid.Length0 == totalRows && grid.Length1 == Width
      invariant TilesPlaced(grid, scored, hierarchyOf, areas, r, slots, k)
    {
      r, slots := PackNext(grid, scored, hierarchyOf, areas, r, slots, k);
      k := k + 1;
    }
    TilesDone(grid, scored, hierarchyOf, areas, r, slots);
  }

  /** Before the first article: an empty matrix, no tiles. */
  lemma TilesStart(grid: array2<bool>, scored: seq<Scored>, hierarchyOf: int -> int, areas: seq<int>)
    requires |areas| == |scored|
    requires forall i, j :: 0 <= i < grid.Length0 && 0 <= j < grid.Length1 ==> !grid[i, j]
    ensures TilesPlaced(grid, scored, hierarchyOf, areas, [], [], 0)
  {
    assert Occupied(grid) == {};
    assert areas[..0] == [];
  }

  /** After the last article: every article has its tile, its slot and the first-fit position. */
  lemma TilesDone(grid: array2<bool>, scored: seq<Scored>, hierarchyOf: int -> int, areas: seq<int>,
                  r: seq<Tile>, slots: seq<Rect>)
    requires TilesPlaced(grid, scored, hierarchyOf, areas, r, slots, |scored|)
    ensures |r| == |scored|
    ensures forall i :: 0 <= i < |r| ==>
      r[i].article == scored[i].article && r[i].score == scored[i].score
      && r[i].hierarchy == hierarchyOf(scored[i].score) && r[i].baseArea == areas[i]
    ensures forall i :: 0 <= i < |r| ==> r[i].slot.Some? && InMatrix(grid.Length0, r[i].slot.value)
    ensures forall i :: 0 <= i < |r| ==>
      var s := r[i].slot.GetOr(Rect(0, 0, 0, 0)); s.w * s.h == areas[i] || (s.w == 1 && s.h == 1)
    ensures forall i, j :: 0 <= i < j < |r| && r[i].slot.Some? && r[j].slot.Some? ==>
      RectCells(r[i].slot.value) !! RectCells(r[j].slot.value)
    ensures FirstFitLayout(r, grid.Length0)
  {
  }

  /**
   * The layout `gridMapper12` promises: each tile carries its hierarchy and
   * base area, and has a slot inside the matrix sized for the total base
   * area, of exactly its base area or 1x1; no two slots overlap; and each
   * slot is the one the first-fit rule gives on the tiles placed before it.
   */
  ghost predicate WellPlaced(r: seq<Tile>, hierarchyOf: int -> int, roundedAreaOf: int -> int) {
    && (forall i :: 0 <= i < |r| ==>
          r[i].hierarchy == hierarchyOf(r[i].score) && r[i].baseArea == BaseArea(r[i].hierarchy, roundedAreaOf(r[i].score)))
    && (forall i :: 0 <= i < |r| ==>
          r[i].slot.Some? && InMatrix(TotalRows(Sum(MapSeq(BaseAreaOf, r))), r[i].slot.value))
    && (forall i :: 0 <= i < |r| ==>
          var s := r[i].slot.GetOr(Rect(0, 0, 0, 0)); s.w * s.h == r[i].baseArea || (s.w == 1 && s.h == 1))
    && (forall i, j :: 0 <= i < j < |r| && r[i].slot.Some? && r[j].slot.Some? ==>
          !Overlap(r[i].slot.value, r[j].slot.value))
    && FirstFitLayout(r, TotalRows(Sum(MapSeq(BaseAreaOf, r))))
  }

  /**
   * The top-ranked article, when its base area fills whole rows, gets the
   * full-width block at the top-left corner (area 24 gives 12x2 at (0, 0)).
   */
  lemma TopTileFullWidth(r: seq<Tile>, hierarchyOf: int -> int, roundedAreaOf: int -> int)
    requires WellPlaced(r, hierarchyOf, roundedAreaOf) && |r| > 0
    requires r[0].baseArea % Width == 0
    ensures SlotOf(r[0]) == Rect(0, 0, Width, r[0].baseArea / Width)
  {
    var areas := MapSeq(BaseAreaOf, r);
    var rows := TotalRows(Sum(areas));
    SumPrefixBound(areas, 1);
    assert areas[..1] == [] + [areas[0]];
    SumAppend([], areas[0]);
    assert 0 < r[0].baseArea <= rows * Width;
    FirstTileFullWidth(r, rows);
  }

  /**
   * Steps 1 to 3 of `gridMapper12` on the score-sorted, non-empty list: base
   * areas, the row count, the second sort and the packing. Every article gets
   * a slot inside the matrix sized for the total base area, of its exact area
   * or 1x1, where the first-fit rule puts it, and no two slots overlap.
   */
  method PlaceScored(scored: seq<Scored>, hierarchyOf: int -> int, roundedAreaOf: int -> int)
    returns (r: seq<Tile>)
    requires Sorted(scored, ScoreLe)
    ensures |r| == |scored|
    ensures forall i :: 0 <= i < |r| ==> Scored(r[i].article, r[i].score) == scored[i]
    ensures WellPlaced(r, hierarchyOf, roundedAreaOf)
  {
    var areas, total := AssignAreas(scored, hierarchyOf, roundedAreaOf);
    var totalRows := TotalRows(total);
    var resorted := ResortByScore(scored);
    r := PackTiles(resorted, hierarchyOf, areas, totalRows);
    assert MapSeq(BaseAreaOf, r) == areas;
    TilesDoNotOverlap(r, totalRows);
  }

  /**
   * `gridMapper12(articles)`. The z-score hierarchy and the rounded share
   * `Math.round(score / totalScore * 144)` of each article are given as
   * `hierarchyOf` and `roundedAreaOf` of its score. Every non-page article
   * gets a slot, in score order: the areas fit the matrix, so a free cell is
   * left for each.
   */
  method GridMapper12(articles: seq<Article>, hierarchyOf: int -> int, roundedAreaOf: int -> int)
    returns (r: seq<Tile>)
    ensures |r| == CountNonPages(articles)
    ensures forall i :: 0 <= i < |r| ==> Scored(r[i].article, r[i].score) == ScoreRanked(articles)[i]
    ensures forall i, j :: 0 <= i < j < |r| ==> r[i].score >= r[j].score
    ensures WellPlaced(r, hierarchyOf, roundedAreaOf)
  {
    var scored := ScoreRanked(articles);
    if |scored| == 0 {
      return [];
    }
    r := PlaceScored(scored, hierarchyOf, roundedAreaOf);
    assert forall i, j :: 0 <= i < j < |r| ==> ScoreLe(scored[i], scored[j]);
  }

  /** Slots inside the matrix that share no cell do not overlap. */
  lemma TilesDoNotOverlap(r: seq<Tile>, totalRows: nat)
    requires forall i :: 0 <= i < |r| ==> r[i].slot.Some? && InMatrix(totalRows, r[i].slot.value)
    requires forall i, j :: 0 <= i < j < |r| && r[i].slot.Some? && r[j].slot.Some? ==>
      RectCells(r[i].slot.value) !! RectCells(r[j].slot.value)
    ensures forall i, j :: 0 <= i < j < |r| ==> !Overlap(r[i].slot.value, r[j].slot.value)
  {
    forall i, j | 0 <= i < j < |r|
      ensures !Overlap(r[i].slot.value, r[j].slot.value)
    {
      DisjointMeansNoOverlap(r[i].slot.value, r[j].slot.value);
    }
  }
}

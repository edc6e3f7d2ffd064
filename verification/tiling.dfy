/** The grid arithmetic shared by the three poster scripts: the sheet count
    along one axis, the pixel span of each tile, and the row-major page order.
    Everything here is in integer pixels of the resized poster raster. */
module Tiling {
  import opened Wrappers
  import PyMath
  import Arith

  /** The pixel extents along one axis: the whole poster, one sheet's
      printable area, and the overlap shared by neighbouring sheets. */
  datatype Axis = Axis(poster: int, sheet: int, overlap: int)

  /** The step between successive tile origins. */
  function Advance(a: Axis): int { a.sheet - a.overlap }

  /** The layouts in which tiles advance: a non-negative overlap strictly
      smaller than the sheet. */
  predicate Advances(a: Axis) { 0 <= a.overlap < a.sheet }

  /** A grid of `k` sheets along the axis reaches the far edge of the poster. */
  predicate Covers(a: Axis, k: int) { k * Advance(a) + a.overlap >= a.poster }

  /** The only failure of the count: a sheet no larger than its overlap has a
      zero advance and the division fails. */
  datatype CountError = ZeroAdvance

  /** `math.ceil((poster - overlap) / (sheet - overlap))`, the count as the
      rotation-aware script computes it. */
  function CountByCeil(a: Axis): (r: Result<int, CountError>)
    ensures r.Failure? <==> Advance(a) == 0
  {
    if Advance(a) == 0 then Failure(ZeroAdvance)
    else Success(PyMath.CeilOfQuotient(a.poster - a.overlap, Advance(a)))
  }

  /** `(poster - overlap) // advance`, plus one when `%` leaves a remainder:
      the count as the two earlier scripts compute it. */
  function CountByFloorMod(a: Axis): (r: Result<int, CountError>)
    ensures r.Failure? <==> Advance(a) == 0
  {
    if Advance(a) == 0 then Failure(ZeroAdvance)
    else Success(PyMath.CeilByFloorMod(a.poster - a.overlap, Advance(a)))
  }

  /** Both generations of the count give the same answer on every input,
      including the failing ones and negative advances. */
  lemma CountFormsAgree(a: Axis)
    ensures CountByCeil(a) == CountByFloorMod(a)
  {
    if Advance(a) != 0 {
      PyMath.CeilFormsAgree(a.poster - a.overlap, Advance(a));
    }
  }

  /** The count of an advancing axis: ceiling division by the advance. */
  function Count(a: Axis): int
    requires Advances(a)
  {
    PyMath.CeilDiv(a.poster - a.overlap, Advance(a))
  }

  /** On an advancing axis both source forms succeed with `Count`. */
  lemma CountMatchesSource(a: Axis)
    requires Advances(a)
    ensures CountByCeil(a) == Success(Count(a))
    ensures CountByFloorMod(a) == Success(Count(a))
  {
    PyMath.CeilOfQuotientIsCeilDiv(a.poster - a.overlap, Advance(a));
  }

  /** The count is the least number of sheets that reaches the poster's far
      edge; a poster wider than the overlap needs at least one sheet, and a
      poster no wider than the overlap gets no sheet at all. */
  lemma CountIsLeastCover(a: Axis)
    requires Advances(a)
    ensures Covers(a, Count(a))
    ensures !Covers(a, Count(a) - 1)
    ensures a.poster > a.overlap ==> Count(a) >= 1
    ensures a.poster <= a.overlap ==> Count(a) <= 0
  {
    var n, d := Count(a), Advance(a);
    PyMath.CeilDivIsLeastMultiple(a.poster - a.overlap, d);
    if a.poster > a.overlap && n < 1 {
      Arith.MulMono(n, 0, d);
    }
    if a.poster <= a.overlap && n > 0 {
      Arith.MulNonNeg(n - 1, d);
    }
  }

  /** Any covering count is at least the computed one. */
  lemma CountIsMinimal(a: Axis, k: int)
    requires Advances(a)
    requires Covers(a, k)
    ensures Count(a) <= k
  {
    CountIsLeastCover(a);
    Arith.MulCancelStrict(Count(a) - 1, k, Advance(a));
  }

  /** The pixel interval `[lo, hi)` of one tile along one axis. */
  datatype Span = Span(lo: int, hi: int)

  /** `left = i * advance`, `right = min(left + sheet, poster)`. */
  function TileSpan(a: Axis, i: int): Span
  {
    var lo := i * Advance(a);
    Span(lo, if lo + a.sheet < a.poster then lo + a.sheet else a.poster)
  }

  /** Every tile in the grid is a non-empty interval inside the poster, no
      longer than a sheet; the last one ends exactly at the poster's edge. */
  lemma SpanWellFormed(a: Axis, i: int)
    requires Advances(a)
    requires 0 <= i < Count(a)
    ensures 0 <= TileSpan(a, i).lo < TileSpan(a, i).hi <= a.poster
    ensures TileSpan(a, i).hi - TileSpan(a, i).lo <= a.sheet
    ensures i == Count(a) - 1 ==> TileSpan(a, i).hi == a.poster
  {
    CountIsLeastCover(a);
    var n, d := Count(a), Advance(a);
    Arith.MulMono(i, n - 1, d);
    Arith.MulNonNeg(i, d);
    Arith.MulSucc(n - 1, d);
  }

  /** Neighbouring tiles share exactly `overlap` pixels when the first one is
      not clipped by the poster's edge, and never leave a gap. */
  lemma SpanOverlap(a: Axis, i: int)
    requires Advances(a)
    requires 0 <= i && i + 1 < Count(a)
    ensures TileSpan(a, i + 1).lo <= TileSpan(a, i).hi
    ensures i * Advance(a) + a.sheet <= a.poster ==>
              TileSpan(a, i).hi - TileSpan(a, i + 1).lo == a.overlap
  {
    SpanWellFormed(a, i + 1);
    Arith.MulSucc(i, Advance(a));
  }

  /** The tile that holds pixel `x`: the one whose origin is the last one at
      or before `x`, capped at the last tile. */
  function TileOf(a: Axis, x: int): (i: int)
    requires Advances(a) && a.poster > a.overlap
    requires 0 <= x < a.poster
  {
    var n := Count(a);
    if x / Advance(a) < n - 1 then x / Advance(a) else n - 1
  }

  /** The tiles cover the poster: pixel `x` lies in the span of `TileOf(x)`. */
  lemma TileOfContains(a: Axis, x: int)
    requires Advances(a) && a.poster > a.overlap
    requires 0 <= x < a.poster
    ensures 0 <= TileOf(a, x) < Count(a)
    ensures TileSpan(a, TileOf(a, x)).lo <= x < TileSpan(a, TileOf(a, x)).hi
  {
    CountIsLeastCover(a);
    var n, d := Count(a), Advance(a);
    var i, q := TileOf(a, x), x / d;
    Arith.DivBounds(x, d);
    Arith.MulSucc(q, d);
    assert 0 <= q;
    SpanWellFormed(a, i);
    if q >= n - 1 {
      Arith.MulMono(i, q, d);
    }
  }

  /** The union of the tile spans is exactly `[0, poster)`. */
  lemma SpansCoverPoster(a: Axis, x: int)
    requires Advances(a)
    requires a.poster > a.overlap
    ensures (0 <= x < a.poster) <==>
              exists i :: 0 <= i < Count(a) && TileSpan(a, i).lo <= x < TileSpan(a, i).hi
  {
    if 0 <= x < a.poster {
      TileOfContains(a, x);
    }
    forall i | 0 <= i < Count(a) && TileSpan(a, i).lo <= x < TileSpan(a, i).hi
      ensures 0 <= x < a.poster
    {
      SpanWellFormed(a, i);
    }
  }

  /** The horizontal and vertical axes of one poster layout. */
  datatype Layout = Layout(x: Axis, y: Axis)

  predicate LayoutAdvances(l: Layout) { Advances(l.x) && Advances(l.y) }

  function Cols(l: Layout): int requires LayoutAdvances(l) { Count(l.x) }

  function Rows(l: Layout): int requires LayoutAdvances(l) { Count(l.y) }

  /** The poster is at least one pixel in each direction: an image resize to
      anything smaller is refused. */
  predicate HasPixels(l: Layout) { l.x.poster >= 1 && l.y.poster >= 1 }

  /** The overlap is non-negative and at most a sheet in each direction: the
      advance is positive or, at worst, zero. */
  predicate OverlapWithinSheet(l: Layout)
  {
    0 <= l.x.overlap <= l.x.sheet && 0 <= l.y.overlap <= l.y.sheet
  }

  /** The grid has a sheet at all exactly when the poster is larger than the
      overlap in both directions. */
  lemma GridNonEmpty(l: Layout)
    requires LayoutAdvances(l)
    ensures (Rows(l) > 0 && Cols(l) > 0) <==>
              (l.x.poster > l.x.overlap && l.y.poster > l.y.overlap)
  {
    CountIsLeastCover(l.x);
    CountIsLeastCover(l.y);
  }

  /** The crop box `(left, upper, right, lower)` of one tile. */
  datatype Box = Box(left: int, upper: int, right: int, lower: int) {
    function Width(): int { right - left }
    function Height(): int { lower - upper }
  }

  predicate InBox(b: Box, x: int, y: int)
  {
    b.left <= x < b.right && b.upper <= y < b.lower
  }

  function TileBox(l: Layout, row: int, col: int): Box
  {
    var h, v := TileSpan(l.x, col), TileSpan(l.y, row);
    Box(h.lo, v.lo, h.hi, v.hi)
  }

  predicate InGrid(l: Layout, row: int, col: int)
    requires LayoutAdvances(l)
  {
    0 <= row < Rows(l) && 0 <= col < Cols(l)
  }

  /** Every box of the grid is non-degenerate, lies inside the poster and is
      at most one sheet in each direction; the last column and last row end
      at the poster's right and bottom edges. */
  lemma TileBoxWellFormed(l: Layout, row: int, col: int)
    requires LayoutAdvances(l) && InGrid(l, row, col)
    ensures var b := TileBox(l, row, col);
      && 0 <= b.left < b.right <= l.x.poster
      && 0 <= b.upper < b.lower <= l.y.poster
      && b.right - b.left <= l.x.sheet
      && b.lower - b.upper <= l.y.sheet
      && (col == Cols(l) - 1 ==> b.right == l.x.poster)
      && (row == Rows(l) - 1 ==> b.lower == l.y.poster)
  {
    SpanWellFormed(l.x, col);
    SpanWellFormed(l.y, row);
  }

  /** The boxes of the grid cover exactly the poster's pixels, when the poster
      is larger than the overlap in both directions. */
  lemma BoxesCoverPoster(l: Layout, x: int, y: int)
    requires LayoutAdvances(l)
    requires l.x.poster > l.x.overlap && l.y.poster > l.y.overlap
    ensures (0 <= x < l.x.poster && 0 <= y < l.y.poster) <==>
              exists row, col :: InGrid(l, row, col) && InBox(TileBox(l, row, col), x, y)
  {
    if 0 <= x < l.x.poster && 0 <= y < l.y.poster {
      TileOfContains(l.x, x);
      TileOfContains(l.y, y);
      assert InGrid(l, TileOf(l.y, y), TileOf(l.x, x));
      assert InBox(TileBox(l, TileOf(l.y, y), TileOf(l.x, x)), x, y);
    }
    forall row, col | InGrid(l, row, col) && InBox(TileBox(l, row, col), x, y)
      ensures 0 <= x < l.x.poster && 0 <= y < l.y.poster
    {
      TileBoxWellFormed(l, row, col);
    }
  }

  /** One grid position. */
  datatype Cell = Cell(row: int, col: int)

  /** The positions visited by `for row in range(rows): for col in range(cols)`. */
  function Cells(rows: int, cols: int): (r: seq<Cell>)
    ensures |r| == if rows > 0 && cols > 0 then rows * cols else 0
    ensures forall i :: 0 <= i < |r| ==> r[i] == Cell(i / cols, i % cols)
    ensures forall i :: 0 <= i < |r| ==> 0 <= r[i].row < rows && 0 <= r[i].col < cols
    decreases rows
  {
    if rows <= 0 || cols <= 0 then []
    else
      var front := Cells(rows - 1, cols);
      var last := seq(cols, c requires 0 <= c < cols => Cell(rows - 1, c));
      RowMajorStep(rows - 1, cols);
      front + last
  }

  /** Index arithmetic of one more row appended to a row-major sequence. */
  lemma RowMajorStep(r: nat, cols: int)
    requires cols > 0
    ensures forall c :: 0 <= c < cols ==> Cell((r * cols + c) / cols, (r * cols + c) % cols) == Cell(r, c)
    ensures (r + 1) * cols == r * cols + cols
  {
    forall c | 0 <= c < cols
      ensures Cell((r * cols + c) / cols, (r * cols + c) % cols) == Cell(r, c)
    {
      Arith.DivModUnique(r * cols + c, cols, r, c);
    }
  }

  /** Index `i` of the visit order is position `(i / cols, i % cols)`, inside
      the grid, and that position's row-major index is `i` again. */
  lemma CellAtIndex(rows: int, cols: int, i: int)
    requires 0 <= i < |Cells(rows, cols)|
    ensures cols > 0 && Cells(rows, cols)[i] == Cell(i / cols, i % cols)
    ensures 0 <= i / cols < rows && 0 <= i % cols < cols
    ensures (i / cols) * cols + i % cols == i
  {
    var c := Cells(rows, cols)[i];
    assert c.row == i / cols && c.col == i % cols;
  }

  /** Every position of the grid is visited, exactly once, at index
      `row * cols + col`. */
  lemma CellsVisitEachOnce(rows: int, cols: int, row: int, col: int)
    requires 0 <= row < rows && 0 <= col < cols
    ensures row * cols + col < |Cells(rows, cols)|
    ensures Cells(rows, cols)[row * cols + col] == Cell(row, col)
    ensures forall i :: 0 <= i < |Cells(rows, cols)| && Cells(rows, cols)[i] == Cell(row, col) ==>
              i == row * cols + col
  {
    Arith.DivModUnique(row * cols + col, cols, row, col);
    Arith.MulMono(row + 1, rows, cols);
    Arith.MulSucc(row, cols);
    forall i | 0 <= i < |Cells(rows, cols)| && Cells(rows, cols)[i] == Cell(row, col)
      ensures i == row * cols + col
    {
      Arith.DivBounds(i, cols);
    }
  }
}

/** Conversions between inches, raster pixels and PDF points, and the page
    size all three scripts print on (US letter, 8.5 x 11 inches). */
module Units {
  import PyMath

  const PointsPerInch: real := 72.0
  const LetterWidth: real := 8.5
  const LetterHeight: real := 11.0

  /** `int(inches * dpi)`: Python truncates toward zero. */
  function ToPx(inches: real, dpi: int): int
  {
    PyMath.Trunc(inches * dpi as real)
  }

  function ToPt(inches: real): real
  {
    inches * PointsPerInch
  }

  /** A length that converts to a positive pixel count at a positive
      resolution is itself positive. */
  lemma PositiveFromPixels(inches: real, dpi: int)
    requires dpi > 0 && ToPx(inches, dpi) > 0
    ensures inches > 0.0
  {
  }
}

/** The drawing primitives of one PDF page, as data: the placed image
    rectangle, stroked segments, and the dashed frame `drawRectangle` draws. */
module Geometry {
  /** An image placement: lower-left corner and size, in points. */
  datatype Rect = Rect(x: real, y: real, width: real, height: real) {
    function Right(): real { x + width }
    function Top(): real { y + height }
  }

  /** One `line(x0, y0, x1, y1)` stroke, in points. */
  datatype Segment = Segment(x0: real, y0: real, x1: real, y1: real)

  predicate IsVertical(s: Segment) { s.x0 == s.x1 }

  predicate IsHorizontal(s: Segment) { s.y0 == s.y1 }

  /** A rectangle by its corners, as `drawRectangle(c, minx, miny, maxx, maxy)`
      receives it. */
  datatype Frame = Frame(minX: real, minY: real, maxX: real, maxY: real)

  /** The four strokes `drawRectangle` issues: bottom, top, left, right. */
  function FrameEdges(f: Frame): (r: seq<Segment>)
    ensures |r| == 4
    ensures IsHorizontal(r[0]) && IsHorizontal(r[1]) && IsVertical(r[2]) && IsVertical(r[3])
    ensures r[0].y0 == f.minY && r[1].y0 == f.maxY && r[2].x0 == f.minX && r[3].x0 == f.maxX
  {
    [ Segment(f.minX, f.minY, f.maxX, f.minY),
      Segment(f.minX, f.maxY, f.maxX, f.maxY),
      Segment(f.minX, f.minY, f.minX, f.maxY),
      Segment(f.maxX, f.minY, f.maxX, f.maxY) ]
  }

  /** The image lies inside the frame. */
  predicate Encloses(f: Frame, r: Rect)
  {
    f.minX <= r.x && r.Right() <= f.maxX && f.minY <= r.y && r.Top() <= f.maxY
  }
}

/** Exact facts about the proportional scaling `k * w / s` of a segment of
    `w` pixels out of a sheet of `s` pixels. */
module Scaling {

  /** A part no larger than the whole scales to no more than the full length. */
  lemma ScaledAtMost(k: real, w: int, s: int)
    requires 0.0 < k && 0 < w <= s
    ensures 0.0 < k * (w as real) / (s as real) <= k
  {
    var q := (w as real) / (s as real);
    assert 0.0 < q <= 1.0;
    assert k * (w as real) / (s as real) == k * q;
  }

  /** A part smaller than the whole scales to less than the full length. */
  lemma ScaledBelowFull(k: real, w: int, s: int)
    requires 0.0 < k && 0 <= w < s
    ensures k * (w as real) / (s as real) < k
  {
    assert (w as real) / (s as real) < 1.0;
    assert k * (w as real) / (s as real) == k * ((w as real) / (s as real));
  }

  /** The blank share and the content share of a sheet add up to the sheet. */
  lemma SharesAddUp(len: real, h: int, s: int)
    requires s > 0
    ensures ((s - h) as real / s as real) * len + (len * (h as real) / (s as real)) == len
  {
    var sr, hr := s as real, h as real;
    assert (s - h) as real == sr - hr;
    assert (sr - hr) / sr == sr / sr - hr / sr;
    assert sr / sr == 1.0;
    assert len * hr / sr == len * (hr / sr);
  }

  /** The whole sheet scales to the full length. */
  lemma WholeIsFull(k: real, s: int)
    requires s != 0
    ensures k * (s as real) / (s as real) == k
  {
  }

  /** Proportional scaling is multiplication by a fixed rate. */
  lemma ScaleIsRate(k: real, w: int, s: int)
    requires s != 0
    ensures k * (w as real) / (s as real) == (w as real) * (k / s as real)
  {
  }

  /** Scaling before or after converting to points gives the same length. */
  lemma ScaleCommutes(len: real, w: int, s: int, unit: real)
    requires s != 0
    ensures (len * unit) * (w as real) / (s as real) == (len * (w as real) / (s as real)) * unit
  {
  }
}

/** The fixed-margin script: a 0.25 inch margin on every side, the count by
    floor division and remainder, last-row images raised by the overlap,
    guides across the whole printable area, the full printable frame, and
    cut marks at the true edge of the poster on the last column and row. */
module ImposterScript {
  import opened Wrappers
  import opened Tiling
  import opened Geometry
  import Units
  import Scaling
  import PosterScript

  const Margin: real := 0.25

  function PrintableW(): real { Units.LetterWidth - 2.0 * Margin }

  function PrintableH(): real { Units.LetterHeight - 2.0 * Margin }

  /** The printable area is 8 by 10.5 inches, 576 by 756 points. */
  lemma PrintableArea()
    ensures PrintableW() == 8.0 && PrintableH() == 10.5
    ensures Units.ToPt(PrintableW()) == 576.0 && Units.ToPt(PrintableH()) == 756.0
    ensures Units.ToPt(Margin) == 18.0
  {
  }

  datatype Setup = Setup(posterW: real, posterH: real, dpi: int, overlapIn: real)

  function PixelLayout(s: Setup): Layout
  {
    var ov := Units.ToPx(s.overlapIn, s.dpi);
    Layout(Axis(Units.ToPx(s.posterW, s.dpi), Units.ToPx(PrintableW(), s.dpi), ov),
           Axis(Units.ToPx(s.posterH, s.dpi), Units.ToPx(PrintableH(), s.dpi), ov))
  }

  /** A setup whose tiles advance; the scale and placement arithmetic needs
      no more. */
  predicate Tiles(s: Setup)
  {
    s.dpi > 0 && LayoutAdvances(PixelLayout(s))
  }

  /** A setup the script draws: its tiles advance and the poster is at least
      one pixel each way. */
  predicate Valid(s: Setup)
  {
    Tiles(s) && HasPixels(PixelLayout(s))
  }

  /** The same setup in the rotation-aware script's terms. */
  function AsPosterSetup(s: Setup): PosterScript.Setup
  {
    PosterScript.Setup(s.posterW, s.posterH, s.dpi, s.overlapIn, Margin, Margin)
  }

  /** `cols` and `rows` by `//`, plus one where `%` leaves a remainder. */
  function GridCount(s: Setup): (r: Result<PosterScript.GridSize, CountError>)
    ensures r.Success? <==> Advance(PixelLayout(s).x) != 0 && Advance(PixelLayout(s).y) != 0
  {
    var l := PixelLayout(s);
    var cols :- CountByFloorMod(l.x);
    var rows :- CountByFloorMod(l.y);
    Success(PosterScript.GridSize(cols, rows))
  }

  /** This count agrees with the later script's `math.ceil` count at the same
      margin on every input, failures included; on a valid setup it is the
      least covering grid. */
  lemma GridCountAgrees(s: Setup)
    ensures PixelLayout(s) == PosterScript.PixelLayout(AsPosterSetup(s))
    ensures GridCount(s) == PosterScript.PagesNeeded(AsPosterSetup(s))
    ensures Valid(s) ==> GridCount(s) == Success(PosterScript.GridSize(Cols(PixelLayout(s)), Rows(PixelLayout(s))))
  {
    var l := PixelLayout(s);
    CountFormsAgree(l.x);
    CountFormsAgree(l.y);
    if Valid(s) {
      CountMatchesSource(l.x);
      CountMatchesSource(l.y);
    }
  }

  /** Everything drawn on one page; guides are named by where they sit. */
  datatype ImposterPage = ImposterPage(
    box: Box,
    image: Rect,
    leftGuide: Option<Segment>,
    rightGuide: Option<Segment>,
    topGuide: Option<Segment>,
    bottomGuide: Option<Segment>,
    border: Frame,
    verticalCut: Option<Segment>,
    horizontalCut: Option<Segment>)

  function Placement(s: Setup, lastRow: bool, w: int, h: int): Rect
    requires Tiles(s)
  {
    Rect(Units.ToPt(Margin),
         if lastRow then Units.ToPt(Margin + s.overlapIn) else Units.ToPt(Margin),
         ScaledWidth(s, w), ScaledHeight(s, h))
  }

  /** The width in points of a segment `w` pixels wide. */
  function ScaledWidth(s: Setup, w: int): real
    requires Tiles(s)
  {
    Units.ToPt(PrintableW()) * (w as real) / PixelLayout(s).x.sheet as real
  }

  function ScaledHeight(s: Setup, h: int): real
    requires Tiles(s)
  {
    Units.ToPt(PrintableH()) * (h as real) / PixelLayout(s).y.sheet as real
  }

  /** A scaled width is the pixel count at 576 points per sheet width, and
      at most the printable width. */
  lemma WidthAtScale(s: Setup, w: int)
    requires Tiles(s)
    ensures ScaledWidth(s, w) == (w as real) * (576.0 / PixelLayout(s).x.sheet as real)
    ensures 0 < w <= PixelLayout(s).x.sheet ==> 0.0 < ScaledWidth(s, w) <= 576.0
  {
    var sw := PixelLayout(s).x.sheet;
    assert ScaledWidth(s, w) == 576.0 * (w as real) / sw as real;
    Scaling.ScaleIsRate(576.0, w, sw);
    if 0 < w <= sw {
      Scaling.ScaledAtMost(576.0, w, sw);
    }
  }

  lemma HeightAtScale(s: Setup, h: int)
    requires Tiles(s)
    ensures ScaledHeight(s, h) == (h as real) * (756.0 / PixelLayout(s).y.sheet as real)
    ensures 0 < h <= PixelLayout(s).y.sheet ==> 0.0 < ScaledHeight(s, h) <= 756.0
  {
    var sh := PixelLayout(s).y.sheet;
    assert ScaledHeight(s, h) == 756.0 * (h as real) / sh as real;
    Scaling.ScaleIsRate(756.0, h, sh);
    if 0 < h <= sh {
      Scaling.ScaledAtMost(756.0, h, sh);
    }
  }

  /** The x position of the vertical cut mark for a segment `w` pixels wide. */
  function CutX(s: Setup, w: int): real
    requires Tiles(s)
  {
    Units.ToPt(Margin) + Units.ToPt(PrintableW() * (w as real) / PixelLayout(s).x.sheet as real)
  }

  /** The y position of the horizontal cut mark for a segment `h` pixels high. */
  function CutY(s: Setup, h: int): real
    requires Tiles(s)
  {
    Units.ToPt(Margin) + (1.0 - (h as real) / PixelLayout(s).y.sheet as real) * Units.ToPt(PrintableH())
  }

  /** The page drawn for grid position `(row, col)`: its image starts at the
      left margin and ends inside the printable width; on every row but the
      last it lies inside the printable frame; a cut mark runs along the
      image's right edge, or where its blank share ends below the top. */
  function PageAt(s: Setup, row: int, col: int): (r: ImposterPage)
    requires Valid(s) && InGrid(PixelLayout(s), row, col)
    ensures r.image.x == 18.0 && r.image.Right() <= 594.0
    ensures row < Rows(PixelLayout(s)) - 1 ==> Encloses(r.border, r.image)
    ensures r.verticalCut.Some? ==> r.verticalCut.value.x0 == r.image.Right()
    ensures r.horizontalCut.Some? ==> r.horizontalCut.value.y0 + r.image.height == 774.0
  {
    var l := PixelLayout(s);
    var cols, rows := Cols(l), Rows(l);
    var box := TileBox(l, row, col);
    var w, h := box.Width(), box.Height();
    var m := Units.ToPt(Margin);
    var top, right := Units.ToPt(PrintableH()) + m, Units.ToPt(PrintableW()) + m;
    var gx0, gx1 := Units.ToPt(s.overlapIn) + m, Units.ToPt(PrintableW() - s.overlapIn) + m;
    var gy0, gy1 := Units.ToPt(PrintableH() - s.overlapIn) + m, Units.ToPt(s.overlapIn) + m;
    PrintableArea();
    SegmentFacts(s, row, col);
    PlacementScale(s, row == rows - 1, w, h);
    CutPositions(s, row == rows - 1, w, h);
    ImposterPage(
      box,
      Placement(s, row == rows - 1, w, h),
      if col > 0 then Some(Segment(gx0, m, gx0, top)) else None,
      if col < cols - 1 then Some(Segment(gx1, m, gx1, top)) else None,
      if row > 0 then Some(Segment(m, gy0, right, gy0)) else None,
      if row < rows - 1 then Some(Segment(m, gy1, right, gy1)) else None,
      Frame(m, m, m + Units.ToPt(PrintableW()), m + Units.ToPt(PrintableH())),
      if col == cols - 1 then Some(Segment(CutX(s, w), m, CutX(s, w), m + Units.ToPt(PrintableH()))) else None,
      if row == rows - 1 then Some(Segment(m, CutY(s, h), m + Units.ToPt(PrintableW()), CutY(s, h))) else None)
  }

  lemma SegmentFacts(s: Setup, row: int, col: int)
    requires Tiles(s) && InGrid(PixelLayout(s), row, col)
    ensures var l, b := PixelLayout(s), TileBox(PixelLayout(s), row, col);
      && 0 < b.Width() <= l.x.sheet
      && 0 < b.Height() <= l.y.sheet
  {
    TileBoxWellFormed(PixelLayout(s), row, col);
  }

  /** A segment of `w` by `h` pixels is drawn at one fixed scale inside the
      printable area; on the last row it is raised by exactly the overlap
      whatever its height, on every other row it sits on the margin. */
  lemma PlacementScale(s: Setup, lastRow: bool, w: int, h: int)
    requires Tiles(s)
    requires 0 < w <= PixelLayout(s).x.sheet && 0 < h <= PixelLayout(s).y.sheet
    ensures var r, l := Placement(s, lastRow, w, h), PixelLayout(s);
      && r.x == 18.0
      && r.width == (w as real) * (576.0 / l.x.sheet as real)
      && r.height == (h as real) * (756.0 / l.y.sheet as real)
      && 0.0 < r.width <= 576.0 && 0.0 < r.height <= 756.0
      && r.y == (if lastRow then 18.0 + Units.ToPt(s.overlapIn) else 18.0)
  {
    WidthAtScale(s, w);
    HeightAtScale(s, h);
  }

  /** The page at `(row, col)` shows that tile's crop box, placed by
      `Placement` (so scaled as `PlacementScale` states) from the left
      margin, on the bottom margin except on the last row, which is raised by
      the overlap; every row but the last lies inside the printable frame. */
  lemma PagePlacement(s: Setup, row: int, col: int)
    requires Valid(s) && InGrid(PixelLayout(s), row, col)
    ensures var p, l, b := PageAt(s, row, col), PixelLayout(s), TileBox(PixelLayout(s), row, col);
      && p.box == b
      && p.image == Placement(s, row == Rows(l) - 1, b.Width(), b.Height())
      && p.image.x == 18.0
      && p.image.y == (if row == Rows(l) - 1 then 18.0 + Units.ToPt(s.overlapIn) else 18.0)
      && (row < Rows(l) - 1 ==> Encloses(p.border, p.image))
  {
    PageShowsTile(s, row, col);
  }

  lemma PageShowsTile(s: Setup, row: int, col: int)
    requires Valid(s) && InGrid(PixelLayout(s), row, col)
    ensures var p, b := PageAt(s, row, col), TileBox(PixelLayout(s), row, col);
      && p.box == b
      && p.image == Placement(s, row == Rows(PixelLayout(s)) - 1, b.Width(), b.Height())
  {
  }

  /** Because the last row is raised by the overlap and not by its blank
      share, its top misses the printable top (774 points) by the difference
      of the two: a full-height segment overshoots by the whole overlap. */
  lemma LastRowTop(s: Setup, w: int, h: int)
    requires Tiles(s)
    ensures var r := Placement(s, true, w, h);
      r.Top() == 774.0 + Units.ToPt(s.overlapIn) - (756.0 - r.height)
    ensures h == PixelLayout(s).y.sheet ==> Placement(s, true, w, h).Top() == 774.0 + Units.ToPt(s.overlapIn)
  {
    var r := Placement(s, true, w, h);
    assert r.height == ScaledHeight(s, h);
    assert r.y == 18.0 + Units.ToPt(s.overlapIn);
    if h == PixelLayout(s).y.sheet {
      FullHeight(s);
    }
  }

  /** A segment as high as the sheet fills the printable height. */
  lemma FullHeight(s: Setup)
    requires Tiles(s)
    ensures ScaledHeight(s, PixelLayout(s).y.sheet) == 756.0
  {
    Scaling.WholeIsFull(Units.ToPt(PrintableH()), PixelLayout(s).y.sheet);
  }

  /** Guides: one on each side that has a neighbour, each running across the
      whole printable area; the frame is the full printable rectangle on
      every page. */
  lemma GuideRules(s: Setup, row: int, col: int)
    requires Valid(s) && InGrid(PixelLayout(s), row, col)
    ensures var p, l := PageAt(s, row, col), PixelLayout(s);
      && (p.leftGuide.Some? <==> col > 0)
      && (p.rightGuide.Some? <==> col < Cols(l) - 1)
      && (p.topGuide.Some? <==> row > 0)
      && (p.bottomGuide.Some? <==> row < Rows(l) - 1)
      && p.border == Frame(18.0, 18.0, 594.0, 774.0)
      && (p.leftGuide.Some? ==> (p.leftGuide.value ==
            Segment(18.0 + Units.ToPt(s.overlapIn), 18.0, 18.0 + Units.ToPt(s.overlapIn), 774.0)))
      && (p.rightGuide.Some? ==> (p.rightGuide.value ==
            Segment(594.0 - Units.ToPt(s.overlapIn), 18.0, 594.0 - Units.ToPt(s.overlapIn), 774.0)))
      && (p.topGuide.Some? ==> (p.topGuide.value ==
            Segment(18.0, 774.0 - Units.ToPt(s.overlapIn), 594.0, 774.0 - Units.ToPt(s.overlapIn))))
      && (p.bottomGuide.Some? ==> (p.bottomGuide.value ==
            Segment(18.0, 18.0 + Units.ToPt(s.overlapIn), 594.0, 18.0 + Units.ToPt(s.overlapIn))))
  {
  }

  /** The vertical cut mark sits on the right edge of a placed segment, the
      horizontal one where the segment's blank share ends below the printable
      top; both stay inside the printable frame. */
  lemma CutPositions(s: Setup, lastRow: bool, w: int, h: int)
    requires Tiles(s)
    requires 0 < w <= PixelLayout(s).x.sheet && 0 < h <= PixelLayout(s).y.sheet
    ensures var r := Placement(s, lastRow, w, h);
      && CutX(s, w) == r.Right() && 18.0 < CutX(s, w) <= 594.0
      && CutY(s, h) + r.height == 774.0 && 18.0 <= CutY(s, h) < 774.0
  {
    var l := PixelLayout(s);
    var r := Placement(s, lastRow, w, h);
    assert r.width == ScaledWidth(s, w) && r.height == ScaledHeight(s, h);
    WidthAtScale(s, w);
    HeightAtScale(s, h);
    CutXIsRightEdge(s, w);
    CutYMeetsHeight(s, h);
  }

  lemma CutXIsRightEdge(s: Setup, w: int)
    requires Tiles(s)
    ensures CutX(s, w) == 18.0 + ScaledWidth(s, w)
  {
    Scaling.ScaleCommutes(PrintableW(), w, PixelLayout(s).x.sheet, Units.PointsPerInch);
  }

  lemma CutYMeetsHeight(s: Setup, h: int)
    requires Tiles(s)
    ensures CutY(s, h) + ScaledHeight(s, h) == 774.0
  {
    var sh := PixelLayout(s).y.sheet as real;
    assert ScaledHeight(s, h) == 756.0 * (h as real) / sh;
    assert (1.0 - (h as real) / sh) * 756.0 == 756.0 - 756.0 * (h as real) / sh;
  }

  /** Cut marks: a vertical one only on the last column, a horizontal one
      only on the last row, each running across the whole printable area at
      the position `CutX` / `CutY` of the page's segment. */
  lemma CutMarks(s: Setup, row: int, col: int)
    requires Valid(s) && InGrid(PixelLayout(s), row, col)
    ensures var p, l := PageAt(s, row, col), PixelLayout(s);
      && (p.verticalCut.Some? <==> col == Cols(l) - 1)
      && (p.horizontalCut.Some? <==> row == Rows(l) - 1)
      && (p.verticalCut.Some? ==>
            p.verticalCut.value == Segment(CutX(s, p.box.Width()), 18.0, CutX(s, p.box.Width()), 774.0))
      && (p.horizontalCut.Some? ==>
            p.horizontalCut.value == Segment(18.0, CutY(s, p.box.Height()), 594.0, CutY(s, p.box.Height())))
  {
  }

  /** The whole PDF: one page per grid position, in the order of `Cells`;
      there is a page at all exactly when the poster is larger than the
      overlap in both directions. */
  function Document(s: Setup): (pages: seq<ImposterPage>)
    requires Valid(s)
    ensures var l := PixelLayout(s);
      |pages| == if Rows(l) > 0 && Cols(l) > 0 then Rows(l) * Cols(l) else 0
    ensures var l := PixelLayout(s);
      |pages| > 0 <==> l.x.poster > l.x.overlap && l.y.poster > l.y.overlap
    ensures var cells := Cells(Rows(PixelLayout(s)), Cols(PixelLayout(s)));
      forall i :: 0 <= i < |pages| ==>
        (InGrid(PixelLayout(s), cells[i].row, cells[i].col) && pages[i] == PageAt(s, cells[i].row, cells[i].col))
  {
    var l := PixelLayout(s);
    GridNonEmpty(l);
    var cells := Cells(Rows(l), Cols(l));
    seq(|cells|, i requires 0 <= i < |cells| => PageAt(s, cells[i].row, cells[i].col))
  }

  /** `split_image_to_letter_overlap` from the aspect-ratio check on, with the
      same failures as the rotation-aware script: it succeeds exactly on a
      poster of at least one pixel each way whose tiles advance, and then
      draws the document, as many pages as the loop over the reported grid
      visits. Each failure is the first step that raises. */
  function Render(s: Setup): (r: Result<seq<ImposterPage>, PosterScript.RenderError>)
    requires s.dpi > 0 && OverlapWithinSheet(PixelLayout(s))
    ensures PixelLayout(s).y.poster == 0 ==> r == Failure(PosterScript.RatioDividesByZero)
    ensures r.Success? <==>
      HasPixels(PixelLayout(s)) && Advance(PixelLayout(s).x) != 0 && Advance(PixelLayout(s).y) != 0
    ensures PixelLayout(s).y.poster != 0 && !HasPixels(PixelLayout(s)) ==>
      r == Failure(PosterScript.ResizeRefused)
    ensures HasPixels(PixelLayout(s)) && GridCount(s).Failure? ==>
      r == Failure(PosterScript.CountFailed(GridCount(s).error))
    ensures r.Success? ==> Valid(s) && GridCount(s).Success?
    ensures r.Success? ==> r.value == Document(s)
    ensures r.Success? ==>
      (var g := GridCount(s).value;
       |r.value| == if g.cols > 0 && g.rows > 0 then g.Sheets() else 0)
  {
    var l := PixelLayout(s);
    if l.y.poster == 0 then Failure(PosterScript.RatioDividesByZero)
    else if !HasPixels(l) then Failure(PosterScript.ResizeRefused)
    else match GridCount(s)
      case Failure(e) => Failure(PosterScript.CountFailed(e))
      case Success(_) =>
        GridCountAgrees(s);
        Success(Document(s))
  }
}

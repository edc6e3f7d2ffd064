/** The rotation-aware script: page count, tile placement with proportional
    scaling and top-anchored last row, clipped alignment guides and the
    dashed printable-area frame. Margins are configurable per axis. */
module PosterScript {
  import opened Wrappers
  import opened Tiling
  import opened Geometry
  import Units
  import Scaling

  /** The physical request: poster size, resolution, overlap and margins,
      all lengths in inches. */
  datatype Setup = Setup(posterW: real, posterH: real, dpi: int, overlapIn: real,
                         marginX: real, marginY: real)

  /** Printable width and height of a letter sheet inside the margins. */
  function PrintableW(s: Setup): real { Units.LetterWidth - 2.0 * s.marginX }

  function PrintableH(s: Setup): real { Units.LetterHeight - 2.0 * s.marginY }

  /** Every length converted to pixels with the same truncating rule. */
  function PixelLayout(s: Setup): Layout
  {
    var ov := Units.ToPx(s.overlapIn, s.dpi);
    Layout(Axis(Units.ToPx(s.posterW, s.dpi), Units.ToPx(PrintableW(s), s.dpi), ov),
           Axis(Units.ToPx(s.posterH, s.dpi), Units.ToPx(PrintableH(s), s.dpi), ov))
  }

  datatype GridSize = GridSize(cols: int, rows: int) {
    function Sheets(): int { cols * rows }
  }

  /** `calculate_pages_needed`: the column and row counts by `math.ceil`.
      It fails (a division by zero) exactly when a sheet's printable pixels
      equal the overlap's. */
  function PagesNeeded(s: Setup): (r: Result<GridSize, CountError>)
    ensures r.Success? <==> Advance(PixelLayout(s).x) != 0 && Advance(PixelLayout(s).y) != 0
  {
    var l := PixelLayout(s);
    var cols :- CountByCeil(l.x);
    var rows :- CountByCeil(l.y);
    Success(GridSize(cols, rows))
  }

  /** A setup whose tiles advance: positive resolution, and an overlap that
      is non-negative and smaller than the printable area in pixels. The
      scale and placement arithmetic needs no more. */
  predicate Tiles(s: Setup)
  {
    s.dpi > 0 && LayoutAdvances(PixelLayout(s))
  }

  /** A setup the script draws: its tiles advance and the poster is at least
      one pixel each way. */
  predicate Valid(s: Setup)
  {
    Tiles(s) && HasPixels(PixelLayout(s))
  }

  /** On a valid setup the page count is the least grid covering the poster
      in each direction. */
  lemma PagesNeededIsLeastCover(s: Setup)
    requires Tiles(s)
    ensures PagesNeeded(s).Success?
    ensures var g, l := PagesNeeded(s).value, PixelLayout(s);
      && g == GridSize(Cols(l), Rows(l))
      && Covers(l.x, g.cols) && !Covers(l.x, g.cols - 1)
      && Covers(l.y, g.rows) && !Covers(l.y, g.rows - 1)
  {
    var l := PixelLayout(s);
    CountMatchesSource(l.x);
    CountMatchesSource(l.y);
    CountIsLeastCover(l.x);
    CountIsLeastCover(l.y);
  }

  /** Everything drawn on one output page. Guides are named by where they sit
      on the sheet: `leftGuide` is the one at `overlap` from the left edge of
      the printable area, `topGuide` the one at `overlap` below its top. */
  datatype PosterPage = PosterPage(
    number: int,
    box: Box,
    image: Rect,
    leftGuide: Option<Segment>,
    rightGuide: Option<Segment>,
    topGuide: Option<Segment>,
    bottomGuide: Option<Segment>,
    border: Frame)

  /** `offset`: the blank space, in inches, below a segment `h` pixels high. */
  function Offset(s: Setup, h: int): real
    requires Tiles(s)
  {
    var sh := PixelLayout(s).y.sheet;
    ((sh - h) as real / sh as real) * PrintableH(s)
  }

  /** Points per poster pixel across and down; the same for every tile. */
  function ScaleX(s: Setup): real
    requires Tiles(s)
  {
    Units.ToPt(PrintableW(s)) / PixelLayout(s).x.sheet as real
  }

  function ScaleY(s: Setup): real
    requires Tiles(s)
  {
    Units.ToPt(PrintableH(s)) / PixelLayout(s).y.sheet as real
  }

  /** `drawInlineImage`'s rectangle for a segment of `w` by `h` pixels. */
  function Placement(s: Setup, lastRow: bool, w: int, h: int): Rect
    requires Tiles(s)
  {
    Rect(Units.ToPt(s.marginX),
         if lastRow then Units.ToPt(s.marginY + Offset(s, h)) else Units.ToPt(s.marginY),
         ScaledWidth(s, w), ScaledHeight(s, h))
  }

  /** The width in points of a segment `w` pixels wide: its share of the
      sheet's pixels times the printable width. */
  function ScaledWidth(s: Setup, w: int): real
    requires Tiles(s)
  {
    Units.ToPt(PrintableW(s)) * (w as real) / PixelLayout(s).x.sheet as real
  }

  function ScaledHeight(s: Setup, h: int): real
    requires Tiles(s)
  {
    Units.ToPt(PrintableH(s)) * (h as real) / PixelLayout(s).y.sheet as real
  }

  /** A scaled width is the pixel count at the common scale, positive and at
      most the printable width. */
  lemma WidthAtScale(s: Setup, w: int)
    requires Tiles(s)
    ensures ScaledWidth(s, w) == (w as real) * ScaleX(s)
    ensures 0 < w <= PixelLayout(s).x.sheet && PrintableW(s) > 0.0 ==>
              0.0 < ScaledWidth(s, w) <= Units.ToPt(PrintableW(s))
  {
    var k, sw := Units.ToPt(PrintableW(s)), PixelLayout(s).x.sheet;
    Scaling.ScaleIsRate(k, w, sw);
    if 0 < w <= sw && PrintableW(s) > 0.0 {
      Scaling.ScaledAtMost(k, w, sw);
    }
  }

  lemma HeightAtScale(s: Setup, h: int)
    requires Tiles(s)
    ensures ScaledHeight(s, h) == (h as real) * ScaleY(s)
    ensures 0 < h <= PixelLayout(s).y.sheet && PrintableH(s) > 0.0 ==>
              0.0 < ScaledHeight(s, h) <= Units.ToPt(PrintableH(s))
  {
    var k, sh := Units.ToPt(PrintableH(s)), PixelLayout(s).y.sheet;
    Scaling.ScaleIsRate(k, h, sh);
    if 0 < h <= sh && PrintableH(s) > 0.0 {
      Scaling.ScaledAtMost(k, h, sh);
    }
  }

  /** The guides' extent `[minx, maxx]` across, as the source computes it. */
  function ContentRight(s: Setup, w: int): real
    requires Tiles(s)
  {
    Units.ToPt(s.marginX) + ContentWidth(s, w)
  }

  /** The source's other form of the scaled width: scale in inches, then
      convert to points. */
  function ContentWidth(s: Setup, w: int): real
    requires Tiles(s)
  {
    Units.ToPt(PrintableW(s) * (w as real) / PixelLayout(s).x.sheet as real)
  }

  function ContentHeight(s: Setup, h: int): real
    requires Tiles(s)
  {
    Units.ToPt(PrintableH(s) * (h as real) / PixelLayout(s).y.sheet as real)
  }

  /** The guides' extent `[miny, maxy]` down, as the source computes it. */
  function ContentBottom(s: Setup, lastRow: bool, h: int): real
    requires Tiles(s)
  {
    if lastRow then Units.ToPt(s.marginY) + Units.ToPt(Offset(s, h)) else Units.ToPt(s.marginY)
  }

  function ContentTop(s: Setup, lastRow: bool, h: int): real
    requires Tiles(s)
  {
    ContentBottom(s, lastRow, h) + ContentHeight(s, h)
  }

  /** The printable area inside the margins, in points. */
  function PrintableArea(s: Setup): Frame
  {
    var mx, my := Units.ToPt(s.marginX), Units.ToPt(s.marginY);
    Frame(mx, my, mx + Units.ToPt(PrintableW(s)), my + Units.ToPt(PrintableH(s)))
  }

  /** The page drawn for grid position `(row, col)`: its image lies inside
      the printable area and inside the dashed frame drawn around it. */
  function PageAt(s: Setup, row: int, col: int): (r: PosterPage)
    requires Valid(s) && InGrid(PixelLayout(s), row, col)
    ensures Encloses(PrintableArea(s), r.image)
    ensures Encloses(r.border, r.image)
  {
    var l := PixelLayout(s);
    var cols, rows := Cols(l), Rows(l);
    var box := TileBox(l, row, col);
    var w, h := box.Width(), box.Height();
    var lastRow := row == rows - 1;
    var mx, my := Units.ToPt(s.marginX), Units.ToPt(s.marginY);
    var minX, maxX := mx, ContentRight(s, w);
    var minY, maxY := ContentBottom(s, lastRow, h), ContentTop(s, lastRow, h);
    var gx0, gx1 := Units.ToPt(s.overlapIn) + mx, Units.ToPt(PrintableW(s) - s.overlapIn) + mx;
    var gy0, gy1 := Units.ToPt(PrintableH(s) - s.overlapIn) + my, Units.ToPt(s.overlapIn) + my;
    SegmentFacts(s, row, col);
    ContentMatchesImage(s, lastRow, w, h);
    PlacementScale(s, lastRow, w, h);
    PlacementAnchor(s, lastRow, w, h);
    PosterPage(
      row * cols + col + 1,
      box,
      Placement(s, lastRow, w, h),
      if col > 0 then Some(Segment(gx0, minY, gx0, maxY)) else None,
      if col < cols - 1 then Some(Segment(gx1, minY, gx1, maxY)) else None,
      if row > 0 then Some(Segment(minX, gy0, maxX, gy0)) else None,
      if row < rows - 1 then Some(Segment(minX, gy1, maxX, gy1)) else None,
      Frame(mx, minY,
            if col == cols - 1 then maxX else mx + Units.ToPt(PrintableW(s)),
            my + Units.ToPt(PrintableH(s))))
  }

  /** Segment sizes and printable lengths of a valid page are positive, and
      segments are at most a sheet. */
  lemma SegmentFacts(s: Setup, row: int, col: int)
    requires Tiles(s) && InGrid(PixelLayout(s), row, col)
    ensures var l, b := PixelLayout(s), TileBox(PixelLayout(s), row, col);
      && 0 < b.right - b.left <= l.x.sheet
      && 0 < b.lower - b.upper <= l.y.sheet
      && PrintableW(s) > 0.0 && PrintableH(s) > 0.0
  {
    var l := PixelLayout(s);
    TileBoxWellFormed(l, row, col);
    Units.PositiveFromPixels(PrintableW(s), s.dpi);
    Units.PositiveFromPixels(PrintableH(s), s.dpi);
  }

  /** Every segment is drawn at the same points-per-pixel scale, so a partial
      segment takes a proportionally smaller part of the printable area. */
  lemma PlacementScale(s: Setup, lastRow: bool, w: int, h: int)
    requires Tiles(s)
    requires 0 < w <= PixelLayout(s).x.sheet && 0 < h <= PixelLayout(s).y.sheet
    requires PrintableW(s) > 0.0 && PrintableH(s) > 0.0
    ensures var r := Placement(s, lastRow, w, h);
      && r.x == Units.ToPt(s.marginX)
      && r.width == (w as real) * ScaleX(s) && r.height == (h as real) * ScaleY(s)
      && 0.0 < r.width <= Units.ToPt(PrintableW(s))
      && 0.0 < r.height <= Units.ToPt(PrintableH(s))
  {
    WidthAtScale(s, w);
    HeightAtScale(s, h);
  }

  /** Rows other than the last sit on the bottom margin; the last row is
      raised by the non-negative blank offset so that its top meets the top
      of the printable area. */
  lemma PlacementAnchor(s: Setup, lastRow: bool, w: int, h: int)
    requires Tiles(s)
    requires 0 < h <= PixelLayout(s).y.sheet
    ensures var r := Placement(s, lastRow, w, h);
      && (!lastRow ==> r.y == Units.ToPt(s.marginY))
      && (lastRow ==>
            && Offset(s, h) >= 0.0
            && r.y == Units.ToPt(s.marginY) + Units.ToPt(Offset(s, h))
            && r.Top() == Units.ToPt(s.marginY) + Units.ToPt(PrintableH(s)))
  {
    var sh := PixelLayout(s).y.sheet;
    Units.PositiveFromPixels(PrintableH(s), s.dpi);
    Scaling.SharesAddUp(PrintableH(s), h, sh);
    assert 0.0 <= (sh - h) as real / sh as real;
  }

  /** The page at `(row, col)` shows that tile's crop box, placed by
      `Placement` (so scaled as `PlacementScale` states) from the left margin;
      rows above the last sit on the bottom margin, and the last row is
      raised so that its top meets the printable top. */
  lemma PagePlacement(s: Setup, row: int, col: int)
    requires Valid(s) && InGrid(PixelLayout(s), row, col)
    ensures var p, l, b := PageAt(s, row, col), PixelLayout(s), TileBox(PixelLayout(s), row, col);
      var my := Units.ToPt(s.marginY);
      && p.box == b
      && p.image == Placement(s, row == Rows(l) - 1, b.Width(), b.Height())
      && p.image.x == Units.ToPt(s.marginX)
      && (row < Rows(l) - 1 ==> p.image.y == my)
      && (row == Rows(l) - 1 ==> my <= p.image.y && p.image.Top() == my + Units.ToPt(PrintableH(s)))
  {
    var l, b := PixelLayout(s), TileBox(PixelLayout(s), row, col);
    PageShowsTile(s, row, col);
    SegmentFacts(s, row, col);
    PlacementAnchor(s, row == Rows(l) - 1, b.Width(), b.Height());
  }

  /** The page at `(row, col)` crops that tile's box and places it with
      `Placement`. */
  lemma PageShowsTile(s: Setup, row: int, col: int)
    requires Valid(s) && InGrid(PixelLayout(s), row, col)
    ensures var p, b := PageAt(s, row, col), TileBox(PixelLayout(s), row, col);
      && p.box == b
      && p.image == Placement(s, row == Rows(PixelLayout(s)) - 1, b.Width(), b.Height())
  {
  }

  /** The guides' extents, computed by the source separately from the image
      rectangle, coincide with the image's edges. */
  lemma ContentMatchesImage(s: Setup, lastRow: bool, w: int, h: int)
    requires Tiles(s)
    ensures var r := Placement(s, lastRow, w, h);
      && ContentRight(s, w) == r.Right()
      && ContentBottom(s, lastRow, h) == r.y
      && ContentTop(s, lastRow, h) == r.Top()
  {
    var r := Placement(s, lastRow, w, h);
    assert r.width == ScaledWidth(s, w) && r.height == ScaledHeight(s, h);
    WidthConvertsAfterScaling(s, w);
    HeightConvertsAfterScaling(s, h);
    assert ContentBottom(s, lastRow, h) == r.y;
  }

  lemma WidthConvertsAfterScaling(s: Setup, w: int)
    requires Tiles(s)
    ensures ContentWidth(s, w) == ScaledWidth(s, w)
  {
    Scaling.ScaleCommutes(PrintableW(s), w, PixelLayout(s).x.sheet, Units.PointsPerInch);
  }

  lemma HeightConvertsAfterScaling(s: Setup, h: int)
    requires Tiles(s)
    ensures ContentHeight(s, h) == ScaledHeight(s, h)
  {
    Scaling.ScaleCommutes(PrintableH(s), h, PixelLayout(s).y.sheet, Units.PointsPerInch);
  }

  /** Alignment guides: the vertical ones at `overlap` in from the left and
      right edges of the printable area exist exactly when there is a column
      to that side; the horizontal one at `overlap` below the top exists
      exactly when there is a row above, the one at `overlap` above the
      bottom exactly when there is a row below. Each guide spans only the
      placed image, not the whole sheet. */
  lemma GuideRules(s: Setup, row: int, col: int)
    requires Valid(s) && InGrid(PixelLayout(s), row, col)
    ensures var p, l := PageAt(s, row, col), PixelLayout(s);
      var mx, my := Units.ToPt(s.marginX), Units.ToPt(s.marginY);
      && (p.leftGuide.Some? <==> col > 0)
      && (p.rightGuide.Some? <==> col < Cols(l) - 1)
      && (p.topGuide.Some? <==> row > 0)
      && (p.bottomGuide.Some? <==> row < Rows(l) - 1)
      && (p.leftGuide.Some? ==> (p.leftGuide.value ==
            Segment(mx + Units.ToPt(s.overlapIn), p.image.y, mx + Units.ToPt(s.overlapIn), p.image.Top())))
      && (p.rightGuide.Some? ==> (p.rightGuide.value ==
            Segment(mx + Units.ToPt(PrintableW(s) - s.overlapIn), p.image.y,
                    mx + Units.ToPt(PrintableW(s) - s.overlapIn), p.image.Top())))
      && (p.topGuide.Some? ==> (p.topGuide.value ==
            Segment(p.image.x, my + Units.ToPt(PrintableH(s) - s.overlapIn),
                    p.image.Right(), my + Units.ToPt(PrintableH(s) - s.overlapIn))))
      && (p.bottomGuide.Some? ==> (p.bottomGuide.value ==
            Segment(p.image.x, my + Units.ToPt(s.overlapIn), p.image.Right(), my + Units.ToPt(s.overlapIn))))
  {
    var l, b := PixelLayout(s), TileBox(PixelLayout(s), row, col);
    ContentMatchesImage(s, row == Rows(l) - 1, b.right - b.left, b.lower - b.upper);
  }

  /** The dashed frame starts at the left margin and ends at the printable
      top; its right edge shrinks to the image only on the last column and
      its bottom rises to the image only on the last row. It always encloses
      the image. */
  lemma BorderRule(s: Setup, row: int, col: int)
    requires Valid(s) && InGrid(PixelLayout(s), row, col)
    ensures var p, l := PageAt(s, row, col), PixelLayout(s);
      var mx, my := Units.ToPt(s.marginX), Units.ToPt(s.marginY);
      && p.border.minX == mx
      && p.border.maxY == my + Units.ToPt(PrintableH(s))
      && p.border.maxX == (if col == Cols(l) - 1 then p.image.Right() else mx + Units.ToPt(PrintableW(s)))
      && p.border.minY == (if row == Rows(l) - 1 then p.image.y else my)
      && Encloses(p.border, p.image)
  {
    var l, b := PixelLayout(s), TileBox(PixelLayout(s), row, col);
    var lastRow := row == Rows(l) - 1;
    var w, h := b.right - b.left, b.lower - b.upper;
    SegmentFacts(s, row, col);
    ContentMatchesImage(s, lastRow, w, h);
    PlacementScale(s, lastRow, w, h);
    PlacementAnchor(s, lastRow, w, h);
  }

  /** The whole PDF: one page per grid position, in the order of `Cells`;
      there is a page at all exactly when the poster is larger than the
      overlap in both directions. */
  function Document(s: Setup): (pages: seq<PosterPage>)
    requires Valid(s)
    ensures var l := PixelLayout(s);
      |pages| == if Rows(l) > 0 && Cols(l) > 0 then Rows(l) * Cols(l) else 0
    ensures var l := PixelLayout(s);
      |pages| > 0 <==> l.x.poster > l.x.overlap && l.y.poster > l.y.overlap
    ensures var cells := Cells(Rows(PixelLayout(s)), Cols(PixelLayout(s)));
      forall i :: 0 <= i < |pages| ==>
        (InGrid(PixelLayout(s), cells[i].row, cells[i].col) && pages[i] == PageAt(s, cells[i].row, cells[i].col))
  {
    var l := PixelLayout(s);
    GridNonEmpty(l);
    var cells := Cells(Rows(l), Cols(l));
    seq(|cells|, i requires 0 <= i < |cells| => PageAt(s, cells[i].row, cells[i].col))
  }

  /** Page `i` of the document is grid position `(i / cols, i % cols)`, inside
      the grid, and carries the label number `i + 1`; every grid position
      appears at index `row * cols + col`. */
  lemma DocumentRowMajor(s: Setup, i: int)
    requires Valid(s) && 0 <= i < |Document(s)|
    ensures var cols := Cols(PixelLayout(s));
      && InGrid(PixelLayout(s), i / cols, i % cols)
      && Document(s)[i] == PageAt(s, i / cols, i % cols)
      && Document(s)[i].number == i + 1
  {
    var l := PixelLayout(s);
    var cols := Cols(l);
    CellAtIndex(Rows(l), cols, i);
  }

  lemma DocumentHasEveryCell(s: Setup, row: int, col: int)
    requires Valid(s) && InGrid(PixelLayout(s), row, col)
    ensures var cols := Cols(PixelLayout(s));
      row * cols + col < |Document(s)| && Document(s)[row * cols + col] == PageAt(s, row, col)
  {
    var l := PixelLayout(s);
    CellsVisitEachOnce(Rows(l), Cols(l), row, col);
  }

  /** What can stop the script between parsing its arguments and drawing:
      the aspect ratio divides by a zero poster height, the resize refuses a
      poster under one pixel, or the page count divides by a zero advance. */
  datatype RenderError = RatioDividesByZero | ResizeRefused | CountFailed(CountError)

  /** `split_image_to_letter_overlap` from the aspect-ratio check on: it
      succeeds exactly on a poster of at least one pixel each way whose tiles
      advance, and then draws the document, as many pages as the loop over
      the reported grid visits. Each failure is the first step that raises. */
  function Render(s: Setup): (r: Result<seq<PosterPage>, RenderError>)
    requires s.dpi > 0 && OverlapWithinSheet(PixelLayout(s))
    ensures PixelLayout(s).y.poster == 0 ==> r == Failure(RatioDividesByZero)
    ensures r.Success? <==>
      HasPixels(PixelLayout(s)) && Advance(PixelLayout(s).x) != 0 && Advance(PixelLayout(s).y) != 0
    ensures PixelLayout(s).y.poster != 0 && !HasPixels(PixelLayout(s)) ==> r == Failure(ResizeRefused)
    ensures HasPixels(PixelLayout(s)) && PagesNeeded(s).Failure? ==>
      r == Failure(CountFailed(PagesNeeded(s).error))
    ensures r.Success? ==> Valid(s) && PagesNeeded(s).Success?
    ensures r.Success? ==> r.value == Document(s)
    ensures r.Success? ==>
      (var g := PagesNeeded(s).value;
       |r.value| == if g.cols > 0 && g.rows > 0 then g.Sheets() else 0)
  {
    var l := PixelLayout(s);
    if l.y.poster == 0 then Failure(RatioDividesByZero)
    else if !HasPixels(l) then Failure(ResizeRefused)
    else match PagesNeeded(s)
      case Failure(e) => Failure(CountFailed(e))
      case Success(_) =>
        PagesNeededIsLeastCover(s);
        Success(Document(s))
  }
}

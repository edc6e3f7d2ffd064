/** The first, margin-less script: the whole letter page is the sheet, every
    segment is stretched over the full page, and solid guides mark the
    overlaps, with the row convention upside down relative to the later
    scripts (the guide for the row above sits near the bottom). */
module SplitScript {
  import opened Wrappers
  import opened Tiling
  import opened Geometry
  import Units
  import PosterScript
  import Scaling

  /** The sheet is the whole 8.5 x 11 inch page: 612 x 792 points. */
  lemma SheetIsWholePage()
    ensures Units.ToPt(Units.LetterWidth) == 612.0 && Units.ToPt(Units.LetterHeight) == 792.0
  {
  }

  datatype Setup = Setup(posterW: real, posterH: real, dpi: int, overlapIn: real)

  function PixelLayout(s: Setup): Layout
  {
    var ov := Units.ToPx(s.overlapIn, s.dpi);
    Layout(Axis(Units.ToPx(s.posterW, s.dpi), Units.ToPx(Units.LetterWidth, s.dpi), ov),
           Axis(Units.ToPx(s.posterH, s.dpi), Units.ToPx(Units.LetterHeight, s.dpi), ov))
  }

  /** A setup the script draws: positive resolution, a poster of at least one
      pixel each way, and an overlap that is non-negative and smaller than a
      page in pixels. */
  predicate Valid(s: Setup)
  {
    s.dpi > 0 && HasPixels(PixelLayout(s)) && LayoutAdvances(PixelLayout(s))
  }

  /** The same setup in the rotation-aware script's terms: margins of zero. */
  function AsPosterSetup(s: Setup): PosterScript.Setup
  {
    PosterScript.Setup(s.posterW, s.posterH, s.dpi, s.overlapIn, 0.0, 0.0)
  }

  /** `cols` and `rows` by `//`, plus one where `%` leaves a remainder. */
  function GridCount(s: Setup): (r: Result<PosterScript.GridSize, CountError>)
    ensures r.Success? <==> Advance(PixelLayout(s).x) != 0 && Advance(PixelLayout(s).y) != 0
  {
    var l := PixelLayout(s);
    var cols :- CountByFloorMod(l.x);
    var rows :- CountByFloorMod(l.y);
    Success(PosterScript.GridSize(cols, rows))
  }

  /** The count equals the `math.ceil` count of the later script with zero
      margins on every input; on a valid setup it is the least covering grid. */
  lemma GridCountAgrees(s: Setup)
    ensures PixelLayout(s) == PosterScript.PixelLayout(AsPosterSetup(s))
    ensures GridCount(s) == PosterScript.PagesNeeded(AsPosterSetup(s))
    ensures Valid(s) ==> GridCount(s) == Success(PosterScript.GridSize(Cols(PixelLayout(s)), Rows(PixelLayout(s))))
  {
    var l := PixelLayout(s);
    CountFormsAgree(l.x);
    CountFormsAgree(l.y);
    if Valid(s) {
      CountMatchesSource(l.x);
      CountMatchesSource(l.y);
    }
  }

  /** Everything drawn on one page; guides are named by where they sit. */
  datatype SplitPage = SplitPage(
    box: Box,
    image: Rect,
    leftGuide: Option<Segment>,
    rightGuide: Option<Segment>,
    bottomGuide: Option<Segment>,
    topGuide: Option<Segment>)

  /** The page drawn for grid position `(row, col)`: a non-empty piece of
      the poster, at most a page of pixels each way, stretched over the
      whole page. */
  function PageAt(s: Setup, row: int, col: int): (r: SplitPage)
    requires Valid(s) && InGrid(PixelLayout(s), row, col)
    ensures 0 < r.box.Width() <= PixelLayout(s).x.sheet && 0 < r.box.Height() <= PixelLayout(s).y.sheet
    ensures r.image == Rect(0.0, 0.0, 612.0, 792.0)
  {
    var l := PixelLayout(s);
    var cols, rows := Cols(l), Rows(l);
    var pw, ph := Units.ToPt(Units.LetterWidth), Units.ToPt(Units.LetterHeight);
    var gx0, gx1 := Units.ToPt(s.overlapIn), Units.ToPt(Units.LetterWidth - s.overlapIn);
    var gy0, gy1 := Units.ToPt(s.overlapIn), Units.ToPt(Units.LetterHeight - s.overlapIn);
    TileBoxWellFormed(l, row, col);
    SheetIsWholePage();
    SplitPage(
      TileBox(l, row, col),
      Rect(0.0, 0.0, pw, ph),
      if col > 0 then Some(Segment(gx0, 0.0, gx0, ph)) else None,
      if col < cols - 1 then Some(Segment(gx1, 0.0, gx1, ph)) else None,
      if row > 0 then Some(Segment(0.0, gy0, pw, gy0)) else None,
      if row < rows - 1 then Some(Segment(0.0, gy1, pw, gy1)) else None)
  }

  /** Every segment, partial edge tiles included, is stretched over the whole
      page at the origin, whatever its size in pixels. */
  lemma StretchedPlacement(s: Setup, row: int, col: int)
    requires Valid(s) && InGrid(PixelLayout(s), row, col)
    ensures var p := PageAt(s, row, col);
      && p.box == TileBox(PixelLayout(s), row, col)
      && p.image == Rect(0.0, 0.0, 612.0, 792.0)
  {
  }

  /** So a partial tile is drawn at more points per pixel than a full one:
      the scale is not uniform across the poster. */
  lemma PartialTileMagnified(l: Layout, row: int, col: int)
    requires LayoutAdvances(l) && InGrid(l, row, col)
    ensures var b := TileBox(l, row, col);
      && 0 < b.right - b.left && 0 < b.lower - b.upper
      && (b.right - b.left < l.x.sheet ==> 612.0 / (b.right - b.left) as real > 612.0 / l.x.sheet as real)
      && (b.lower - b.upper < l.y.sheet ==> 792.0 / (b.lower - b.upper) as real > 792.0 / l.y.sheet as real)
  {
    TileBoxWellFormed(l, row, col);
    var b := TileBox(l, row, col);
    StretchBeatsFull(612.0, b.right - b.left, l.x.sheet);
    StretchBeatsFull(792.0, b.lower - b.upper, l.y.sheet);
  }

  lemma StretchBeatsFull(len: real, w: int, sheet: int)
    requires 0.0 < len && 0 < w <= sheet
    ensures w < sheet ==> len / w as real > len / sheet as real
  {
    if w < sheet {
      assert len / w as real * (w as real) == len;
      assert len / sheet as real * (w as real) < len / sheet as real * (sheet as real);
    }
  }

  /** Guides are solid lines across the whole page. Vertical: at `overlap`
      from the left exactly when a column lies to the left, at `overlap` from
      the right exactly when one lies to the right. Horizontal: at `overlap`
      above the bottom exactly when a row lies above, at `overlap` below the
      top exactly when a row lies below. */
  lemma GuideRules(s: Setup, row: int, col: int)
    requires Valid(s) && InGrid(PixelLayout(s), row, col)
    ensures var p, l, ov := PageAt(s, row, col), PixelLayout(s), Units.ToPt(s.overlapIn);
      && (p.leftGuide.Some? <==> col > 0)
      && (p.rightGuide.Some? <==> col < Cols(l) - 1)
      && (p.bottomGuide.Some? <==> row > 0)
      && (p.topGuide.Some? <==> row < Rows(l) - 1)
      && (p.leftGuide.Some? ==> p.leftGuide.value == Segment(ov, 0.0, ov, 792.0))
      && (p.rightGuide.Some? ==> p.rightGuide.value == Segment(612.0 - ov, 0.0, 612.0 - ov, 792.0))
      && (p.bottomGuide.Some? ==> p.bottomGuide.value == Segment(0.0, ov, 612.0, ov))
      && (p.topGuide.Some? ==> p.topGuide.value == Segment(0.0, 792.0 - ov, 612.0, 792.0 - ov))
  {
  }

  /** The whole PDF: one page per grid position, in the order of `Cells`;
      there is a page at all exactly when the poster is larger than the
      overlap in both directions. */
  function Document(s: Setup): (pages: seq<SplitPage>)
    requires Valid(s)
    ensures var l := PixelLayout(s);
      |pages| == if Rows(l) > 0 && Cols(l) > 0 then Rows(l) * Cols(l) else 0
    ensures var l := PixelLayout(s);
      |pages| > 0 <==> l.x.poster > l.x.overlap && l.y.poster > l.y.overlap
    ensures var cells := Cells(Rows(PixelLayout(s)), Cols(PixelLayout(s)));
      forall i :: 0 <= i < |pages| ==>
        (InGrid(PixelLayout(s), cells[i].row, cells[i].col) && pages[i] == PageAt(s, cells[i].row, cells[i].col))
  {
    var l := PixelLayout(s);
    GridNonEmpty(l);
    var cells := Cells(Rows(l), Cols(l));
    seq(|cells|, i requires 0 <= i < |cells| => PageAt(s, cells[i].row, cells[i].col))
  }

  /** Page `i` is grid position `(i / cols, i % cols)`: rows outer, columns
      inner, exactly `rows * cols` pages. */
  lemma DocumentRowMajor(s: Setup, i: int)
    requires Valid(s) && 0 <= i < |Document(s)|
    ensures var cols := Cols(PixelLayout(s));
      && InGrid(PixelLayout(s), i / cols, i % cols)
      && Document(s)[i] == PageAt(s, i / cols, i % cols)
  {
    var l := PixelLayout(s);
    assert Cells(Rows(l), Cols(l))[i] == Cell(i / Cols(l), i % Cols(l));
  }

  /** The later script at zero margins draws the same crop box and the same
      vertical guides, but mirrors the horizontal ones: the guide for the row
      above sits `overlap` above the bottom here and `overlap` below the top
      there, and the guide for the row below the other way round. */
  lemma GuidesMirrorPosterScript(s: Setup, row: int, col: int)
    requires Valid(s) && InGrid(PixelLayout(s), row, col)
    ensures PosterScript.Valid(AsPosterSetup(s)) && InGrid(PosterScript.PixelLayout(AsPosterSetup(s)), row, col)
    ensures var p, q := PageAt(s, row, col), PosterScript.PageAt(AsPosterSetup(s), row, col);
      && p.box == q.box
      && (p.leftGuide.Some? <==> q.leftGuide.Some?)
      && (p.leftGuide.Some? ==> p.leftGuide.value.x0 == q.leftGuide.value.x0)
      && (p.rightGuide.Some? <==> q.rightGuide.Some?)
      && (p.rightGuide.Some? ==> p.rightGuide.value.x0 == q.rightGuide.value.x0)
      && (p.bottomGuide.Some? <==> q.topGuide.Some?)
      && (p.bottomGuide.Some? ==> p.bottomGuide.value.y0 + q.topGuide.value.y0 == 792.0)
      && (p.topGuide.Some? <==> q.bottomGuide.Some?)
      && (p.topGuide.Some? ==> p.topGuide.value.y0 + q.bottomGuide.value.y0 == 792.0)
  {
    GridCountAgrees(s);
  }

  /** On a full tile the later script at zero margins draws the same
      rectangle as this one; on a tile narrower or lower than a page it draws
      a proportionally smaller one where this script stretches it. */
  lemma ImageAgainstPosterScript(s: Setup, row: int, col: int)
    requires Valid(s) && InGrid(PixelLayout(s), row, col)
    ensures PosterScript.Valid(AsPosterSetup(s)) && InGrid(PosterScript.PixelLayout(AsPosterSetup(s)), row, col)
    ensures var p, q, l := PageAt(s, row, col), PosterScript.PageAt(AsPosterSetup(s), row, col), PixelLayout(s);
      && (p.box.Width() == l.x.sheet && p.box.Height() == l.y.sheet ==> q.image == p.image)
      && (p.box.Width() < l.x.sheet ==> q.image.width < p.image.width)
      && (p.box.Height() < l.y.sheet ==> q.image.height < p.image.height)
  {
    var ps, l := AsPosterSetup(s), PixelLayout(s);
    var b := TileBox(l, row, col);
    GridCountAgrees(s);
    PosterScript.PageShowsTile(ps, row, col);
    TileBoxWellFormed(l, row, col);
    ZeroMarginWidth(s, b.Width());
    ZeroMarginHeight(s, b.Height());
  }

  /** At zero margins the later script scales a segment `w` pixels wide to
      the full page width exactly when it is a whole sheet, and to less
      otherwise. */
  lemma ZeroMarginWidth(s: Setup, w: int)
    requires Valid(s) && 0 <= w <= PixelLayout(s).x.sheet
    ensures PosterScript.Tiles(AsPosterSetup(s))
    ensures w == PixelLayout(s).x.sheet ==> PosterScript.ScaledWidth(AsPosterSetup(s), w) == 612.0
    ensures w < PixelLayout(s).x.sheet ==> PosterScript.ScaledWidth(AsPosterSetup(s), w) < 612.0
  {
    var ps, sw := AsPosterSetup(s), PixelLayout(s).x.sheet;
    GridCountAgrees(s);
    assert Units.ToPt(PosterScript.PrintableW(ps)) == 612.0;
    if w == sw {
      Scaling.WholeIsFull(612.0, sw);
    } else {
      Scaling.ScaledBelowFull(612.0, w, sw);
    }
  }

  /** The same down the page: a whole sheet fills the page height, with no
      blank offset on the last row; anything less is drawn lower. */
  lemma ZeroMarginHeight(s: Setup, h: int)
    requires Valid(s) && 0 <= h <= PixelLayout(s).y.sheet
    ensures PosterScript.Tiles(AsPosterSetup(s))
    ensures h == PixelLayout(s).y.sheet ==>
      PosterScript.ScaledHeight(AsPosterSetup(s), h) == 792.0 && PosterScript.Offset(AsPosterSetup(s), h) == 0.0
    ensures h < PixelLayout(s).y.sheet ==> PosterScript.ScaledHeight(AsPosterSetup(s), h) < 792.0
  {
    var ps, sh := AsPosterSetup(s), PixelLayout(s).y.sheet;
    GridCountAgrees(s);
    assert Units.ToPt(PosterScript.PrintableH(ps)) == 792.0;
    if h == sh {
      Scaling.WholeIsFull(792.0, sh);
      FullSheetNoOffset(s);
    } else {
      Scaling.ScaledBelowFull(792.0, h, sh);
    }
  }

  lemma FullSheetNoOffset(s: Setup)
    requires Valid(s)
    ensures PosterScript.Tiles(AsPosterSetup(s))
    ensures PosterScript.Offset(AsPosterSetup(s), PixelLayout(s).y.sheet) == 0.0
  {
    GridCountAgrees(s);
    var sh := PixelLayout(s).y.sheet;
    assert (sh - sh) as real / sh as real == 0.0;
  }

  /** `split_image_to_letter_overlap`: the resize refuses a poster under one
      pixel either way, the count divides by a zero advance, and otherwise
      the document is drawn, as many pages as the loop over the counted grid
      visits. This script has no aspect-ratio check. */
  function Render(s: Setup): (r: Result<seq<SplitPage>, PosterScript.RenderError>)
    requires s.dpi > 0 && OverlapWithinSheet(PixelLayout(s))
    ensures !HasPixels(PixelLayout(s)) ==> r == Failure(PosterScript.ResizeRefused)
    ensures r.Success? <==>
      HasPixels(PixelLayout(s)) && Advance(PixelLayout(s).x) != 0 && Advance(PixelLayout(s).y) != 0
    ensures HasPixels(PixelLayout(s)) && GridCount(s).Failure? ==>
      r == Failure(PosterScript.CountFailed(GridCount(s).error))
    ensures r.Success? ==> Valid(s) && GridCount(s).Success?
    ensures r.Success? ==> r.value == Document(s)
    ensures r.Success? ==>
      (var g := GridCount(s).value;
       |r.value| == if g.cols > 0 && g.rows > 0 then g.Sheets() else 0)
  {
    if !HasPixels(PixelLayout(s)) then Failure(PosterScript.ResizeRefused)
    else match GridCount(s)
      case Failure(e) => Failure(PosterScript.CountFailed(e))
      case Success(_) =>
        GridCountAgrees(s);
        Success(Document(s))
  }
}

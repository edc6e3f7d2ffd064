/** The rotation decision of the rotation-aware script's `main`: count the
    sheets as given and with the poster turned a quarter turn, and turn it
    only when that strictly saves sheets. The comparison passes the margins
    swapped; the preview and the renderer afterwards receive them unswapped. */
module PosterOrientation {
  import opened Wrappers
  import opened Tiling
  import opened PosterScript
  import Arith

  /** The arguments of the second `calculate_pages_needed` call: poster
      width and height exchanged, and margins exchanged too. */
  function ComparedTurn(s: Setup): Setup
  {
    Setup(s.posterH, s.posterW, s.dpi, s.overlapIn, s.marginY, s.marginX)
  }

  /** The arguments the preview and the renderer receive after a rotation:
      poster width and height exchanged, margins as the user gave them. */
  function RenderedTurn(s: Setup): Setup
  {
    Setup(s.posterH, s.posterW, s.dpi, s.overlapIn, s.marginX, s.marginY)
  }

  /** Whether the image is rotated, and the setup used from then on. */
  datatype Decision = Decision(rotated: bool, setup: Setup)

  /** The rotation decision as written: with rotation enabled, both counts
      are computed (either may fail with a zero advance) and the poster is
      turned only on a strict improvement. */
  function Decide(s: Setup, noRotate: bool): (r: Result<Decision, CountError>)
    ensures noRotate ==> r == Success(Decision(false, s))
    ensures !noRotate ==> (r.Success? <==> PagesNeeded(s).Success? && PagesNeeded(ComparedTurn(s)).Success?)
    ensures r.Success? ==> r.value.setup == if r.value.rotated then RenderedTurn(s) else s
  {
    if noRotate then Success(Decision(false, s))
    else
      var g :- PagesNeeded(s);
      var turned :- PagesNeeded(ComparedTurn(s));
      if turned.Sheets() < g.Sheets() then Success(Decision(true, RenderedTurn(s)))
      else Success(Decision(false, s))
  }

  /** The decision picks the orientation with fewer compared sheets, keeping
      the original on a tie: the chosen count is never above the other. */
  lemma DecideIsStableMinimum(s: Setup, noRotate: bool)
    requires !noRotate && Decide(s, noRotate).Success?
    ensures var plain, turned := PagesNeeded(s).value.Sheets(), PagesNeeded(ComparedTurn(s)).value.Sheets();
      && (Decide(s, noRotate).value.rotated <==> turned < plain)
      && (turned == plain ==> !Decide(s, noRotate).value.rotated)
      && (if Decide(s, noRotate).value.rotated then turned else plain) <= (if Decide(s, noRotate).value.rotated then plain else turned)
  {
  }

  /** `--preview`: the grid of the chosen orientation, counted with the
      margins as given. */
  function Preview(s: Setup, noRotate: bool): (r: Result<GridSize, CountError>)
    ensures Decide(s, noRotate).Failure? ==> r.Failure?
    ensures noRotate ==> r == PagesNeeded(s)
    ensures Decide(s, noRotate).Success? ==>
      r == PagesNeeded(if Decide(s, noRotate).value.rotated then RenderedTurn(s) else s)
  {
    var d :- Decide(s, noRotate);
    PagesNeeded(d.setup)
  }

  /** With equal margins the swap is harmless: the previewed grid is the one
      the decision compared, so a rotation never costs sheets. */
  lemma EqualMarginsKeepPromise(s: Setup, noRotate: bool)
    requires s.marginX == s.marginY
    requires !noRotate && Decide(s, noRotate).Success?
    ensures Preview(s, noRotate).Success?
    ensures Preview(s, noRotate).value.Sheets() <= PagesNeeded(s).value.Sheets()
  {
    assert ComparedTurn(s) == RenderedTurn(s);
    var plain, turned := PagesNeeded(s), PagesNeeded(ComparedTurn(s));
    assert plain.Success? && turned.Success?;
    if turned.value.Sheets() < plain.value.Sheets() {
      assert Preview(s, noRotate) == turned;
    } else {
      assert Preview(s, noRotate) == plain;
    }
  }

  /** The poster of 9 x 5 inches at 10 dpi, overlap 0.5, margins 2 across and
      1.5 down. */
  function QuirkSetup(): Setup
  {
    Setup(9.0, 5.0, 10, 0.5, 2.0, 1.5)
  }

  /** With unequal margins the rotation can cost sheets: here the upright
      poster needs 3, the swapped-margin comparison predicts 2 and rotates,
      and the rotated poster then takes 4 pages to render. */
  lemma RotationCanAddPages()
    ensures PagesNeeded(QuirkSetup()) == Success(GridSize(3, 1))
    ensures PagesNeeded(ComparedTurn(QuirkSetup())) == Success(GridSize(1, 2))
    ensures Decide(QuirkSetup(), false) == Success(Decision(true, RenderedTurn(QuirkSetup())))
    ensures Preview(QuirkSetup(), false) == Success(GridSize(2, 2))
  {
    var s := QuirkSetup();
    PixelsOf(s, PixelLayout(s), Layout(Axis(90, 45, 5), Axis(50, 80, 5)));
    PixelsOf(ComparedTurn(s), PixelLayout(ComparedTurn(s)), Layout(Axis(50, 55, 5), Axis(90, 70, 5)));
    PixelsOf(RenderedTurn(s), PixelLayout(RenderedTurn(s)), Layout(Axis(50, 45, 5), Axis(90, 80, 5)));
    CountAt(Axis(90, 45, 5), 3);
    CountAt(Axis(50, 80, 5), 1);
    CountAt(Axis(50, 55, 5), 1);
    CountAt(Axis(90, 70, 5), 2);
    CountAt(Axis(50, 45, 5), 2);
    CountAt(Axis(90, 80, 5), 2);
  }

  lemma PixelsOf(s: Setup, l: Layout, expected: Layout)
    requires l == PixelLayout(s)
    requires s.dpi == 10 && s.overlapIn == 0.5
    requires expected.x == Axis((s.posterW * 10.0).Floor, ((8.5 - 2.0 * s.marginX) * 10.0).Floor, 5)
    requires expected.y == Axis((s.posterH * 10.0).Floor, ((11.0 - 2.0 * s.marginY) * 10.0).Floor, 5)
    requires s.posterW >= 0.0 && s.posterH >= 0.0 && s.marginX <= 4.25 && s.marginY <= 5.5
    ensures l == expected
  {
  }

  lemma CountAt(a: Axis, n: int)
    requires Advances(a) && Covers(a, n) && !Covers(a, n - 1)
    ensures CountByCeil(a) == Success(n)
  {
    CountMatchesSource(a);
    CountIsMinimal(a, n);
    CountIsLeastCover(a);
    if Count(a) < n {
      Arith.MulMono(Count(a), n - 1, Advance(a));
    }
  }

  /** The evidently intended decision: compare against the grid that will
      actually be rendered, with the margins left as given. */
  function DecideByRenderedGrid(s: Setup, noRotate: bool): (r: Result<Decision, CountError>)
    ensures noRotate ==> r == Success(Decision(false, s))
    ensures r.Success? ==> r.value.setup == if r.value.rotated then RenderedTurn(s) else s
  {
    if noRotate then Success(Decision(false, s))
    else
      var g :- PagesNeeded(s);
      var turned :- PagesNeeded(RenderedTurn(s));
      if turned.Sheets() < g.Sheets() then Success(Decision(true, RenderedTurn(s)))
      else Success(Decision(false, s))
  }

  /** With the corrected comparison the rendered grid never has more sheets
      than the upright one, and a rotation always saves at least one. */
  lemma RenderedDecisionNeverAddsPages(s: Setup, noRotate: bool)
    requires !noRotate && DecideByRenderedGrid(s, noRotate).Success?
    ensures var d := DecideByRenderedGrid(s, noRotate).value;
      && PagesNeeded(d.setup).Success?
      && PagesNeeded(d.setup).value.Sheets() <= PagesNeeded(s).value.Sheets()
      && (d.rotated ==> PagesNeeded(d.setup).value.Sheets() < PagesNeeded(s).value.Sheets())
  {
    var plain, turned := PagesNeeded(s), PagesNeeded(RenderedTurn(s));
    assert plain.Success? && turned.Success?;
    if turned.value.Sheets() < plain.value.Sheets() {
      assert DecideByRenderedGrid(s, noRotate).value.setup == RenderedTurn(s);
    } else {
      assert DecideByRenderedGrid(s, noRotate).value.setup == s;
    }
  }
}

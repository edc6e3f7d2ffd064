# Poster tiling, modelled in Dafny

This project models the core of a small set of Python scripts. They print a
large poster image on US-letter sheets with overlapping edges.

Each of the three script generations does the same four things:

- It converts the poster, sheet and overlap sizes from inches to pixels with
  `int(inches * dpi)`.
- It counts the sheets needed across and down.
- It crops the resized raster into a grid of boxes, one box per sheet.
- It draws each box on one PDF page, with dashed or solid alignment guides
  where the neighbouring sheets overlap.

The generations differ in the details:

- `poster_split.py` has no margins. It stretches every segment over the whole
  page.
- `imposter.py` has a fixed 0.25 inch margin. It adds cut marks on the last
  row and column.
- `poster.py` has configurable margins and a dashed frame. It anchors the last
  row to the top of the printable area and rotates the poster when that saves
  sheets. It also parses the size, margin and colour arguments.

Separately, `postergen.py` renders a text file into an image. Its pure helpers
are modelled:

- the one-character line directives;
- the classification of lines;
- the font lookup by name;
- the horizontal placement of a line;
- the fallback colour table.

The modules are:

- `Tiling` (`tiling.dfy`): the shared grid arithmetic.
  - A count along one axis, in both the `math.ceil` form and the `//`/`%` form.
  - The tile spans and crop boxes, with coverage and overlap.
  - The row-major page order.
- `PyMath` (`pymath.dfy`): Python's `int()`, `//`, `%` and `math.ceil`, over
  exact rationals.
- `Units`, `Geometry`, `Scaling` (`geometry.dfy`):
  - inch, pixel and point conversions;
  - the drawing primitives as data: an image rectangle, a line segment, a
    rectangle frame;
  - facts about proportional scaling.
- `PosterScript` and `PosterOrientation` (`poster_layout.dfy`, `orientation.dfy`):
  the rotation-aware script, and its rotation decision.
- `ImposterScript` (`imposter_layout.dfy`), `SplitScript` (`split_layout.dfy`):
  the two earlier scripts.
- `Text` (`text.dfy`): the Python string operations the parsers use.
- `PosterArgs` (`poster_args.dfy`): the size, margin and colour parsers.
- `TextPoster` (`postergen.dfy`): the text-poster helpers.

Drawing calls are modelled as returned page records. A page lists:

- the crop box;
- the image rectangle;
- each alignment guide as an `Option<Segment>`, named by where it sits on the
  sheet;
- the frame and the cut marks.

A whole run is a `Document`: the sequence of pages in loop order. Lengths in
inches and points are exact `real`s. Pixel counts are `int`s.

Some behaviours of the code, stated as the model has them:

- **Truncation.** Pixel sizes are `int(x * dpi)`, which truncates toward zero
  (`Units.ToPx`, `PyMath.Trunc`). It is not a floor.
- **No minimum of one sheet.** The sheet count is not floored at one. A poster
  no larger than the overlap gets a count of zero or less, and so no pages
  (`Tiling.CountIsLeastCover`, `Tiling.GridNonEmpty`).
- **Unguarded overlap.** Nothing checks that a sheet is larger than the
  overlap.
  - When the two are equal in pixels, the division fails. This is the
    `ZeroAdvance` error of `Tiling.CountByCeil`.
  - When the overlap is larger, the count is computed all the same.
- **A poster must have pixels.** A poster under one pixel in either direction
  never reaches the page loop (`PosterScript.Render` and its siblings).
  - In `poster.py` and `imposter.py` the aspect-ratio line divides by the
    poster's pixel height, so a zero height raises `ZeroDivisionError`.
  - Every script then resizes the image to the poster's pixel size, which the
    imaging library refuses below one pixel.
- **Where the page geometry applies.** It is modelled for the setups that get
  past these steps (`Valid`): a positive resolution, a poster of at least one
  pixel each way, and an overlap that is non-negative and smaller than the
  sheet in pixels.
- **The last row in `imposter.py`.** It is raised by the overlap, not by the
  blank share of its sheet. A full-height last row therefore reaches 774 points
  plus the overlap (810 points at half an inch), above the 792-point page
  (`ImposterScript.LastRowTop`). `poster.py` instead puts the last row's top at
  the printable top (`PosterScript.PlacementAnchor`). This is recorded as the
  code's behaviour, not as a defect: a full-height last row needs a poster that
  the tiles fit exactly.

## Model

| member | source | states |
|---|---|---|
| Tiling.CountByCeil | poster.py:75-76 | The `math.ceil` count fails exactly when the sheet and overlap are equal in pixels (a zero advance) |
| Tiling.CountByFloorMod | imposter.py:58-63 | The `//`-plus-remainder count fails exactly when the advance is zero |
| Tiling.CountFormsAgree | poster_split.py:19-24 | The floor/mod count of the two earlier scripts equals the `math.ceil` count of the later one on every input, failures and negative advances included, with the quotient taken exactly |
| Tiling.CountMatchesSource | poster.py:75-76 | On an advancing axis both source forms succeed with the integer ceiling of `(poster - overlap) / advance` |
| Tiling.CountIsLeastCover | poster.py:75-76 | The count is the least number of sheets whose advances plus one overlap reach the poster's far edge; at least one sheet when the poster is wider than the overlap, none otherwise |
| Tiling.CountIsMinimal | poster.py:75-76 | Every sheet count that reaches the far edge is at least the computed count |
| Tiling.SpanWellFormed | poster.py:157-160 | Each tile `[i*advance, min(i*advance + sheet, poster))` is non-empty, inside the poster and at most one sheet long; the last one ends at the poster's edge |
| Tiling.SpanOverlap | poster.py:157-160 | Neighbouring tiles leave no gap, and share exactly the overlap when the first is not clipped by the poster's edge |
| Tiling.TileOfContains | poster.py:155-160 | Every poster pixel lies in the span of a tile of the grid |
| Tiling.SpansCoverPoster | poster.py:155-160 | For a poster larger than the overlap, a pixel lies in some tile's span if and only if it lies inside the poster (a poster no larger than the overlap gets no tile at all) |
| Tiling.TileBoxWellFormed | imposter.py:67-74 | Every crop box of the grid is non-degenerate, inside the poster, at most one sheet in each direction, and the last column and row end at the poster's right and bottom edges |
| Tiling.BoxesCoverPoster | poster_split.py:28-34 | For a poster larger than the overlap in both directions, a pixel lies in some crop box of the grid if and only if it lies inside the poster |
| Tiling.Cells | poster.py:155-156 | The nested row/column loops visit `rows * cols` positions, position `i` being `(i / cols, i % cols)`, all inside the grid |
| Tiling.CellsVisitEachOnce | poster.py:155-156 | Each grid position is visited exactly once, at index `row * cols + col` |
| Tiling.GridNonEmpty | poster.py:75-76 | The grid has at least one row and one column exactly when the poster is larger than the overlap in both directions |
| Tiling.CellAtIndex | poster.py:155-156 | Index `i` of the loop order is position `(i / cols, i % cols)`, inside the grid, and that position's row-major index is `i` again |
| PyMath.Trunc | poster.py:68-72 | `int(x)` on a number rounds toward zero: the largest integer not above a non-negative `x`, the smallest not below a negative one |
| PyMath.ModZeroIffIntegralQuotient | imposter.py:60-63 | Python's `%` is zero exactly when the true quotient is an integer, for any nonzero divisor |
| PyMath.CeilFormsAgree | imposter.py:58-63 | `math.ceil(a / b)` of the exact quotient equals `a // b` plus one when `a % b != 0`, for every nonzero `b`, negative ones included |
| PyMath.FloorDivPositive | poster_split.py:19-24 | For a positive divisor Python's `//` and `%` coincide with the Euclidean operators |
| PyMath.CeilOfQuotientIsCeilDiv | poster.py:75-76 | For a positive divisor both source forms equal integer ceiling division |
| PyMath.CeilDivIsLeastMultiple | poster.py:75-76 | Ceiling division gives the least `k` with `k * b >= a` |
| Geometry.FrameEdges | poster.py:27-31 | The rectangle helper strokes two horizontal edges at the frame's bottom and top and two vertical ones at its left and right |
| PosterScript.PagesNeeded | poster.py:61-78 | The page count succeeds exactly when neither sheet has the overlap's pixel size |
| PosterScript.PagesNeededIsLeastCover | poster.py:61-78 | On a valid setup the columns and rows are the least grid that covers the poster in each direction |
| PosterScript.SegmentFacts | poster.py:157-167 | Every cropped segment is between one pixel and one sheet in each direction, and the printable area is positive |
| PosterScript.PlacementScale | poster.py:178-184 | Every segment is drawn at the same points-per-pixel scale from the left margin, so it fills at most the printable area, a partial one proportionally less |
| PosterScript.WidthAtScale | poster.py:182 | A segment `w` pixels wide is drawn `w` times the common points-per-pixel scale wide; a segment of one pixel up to a sheet gets a positive width no larger than the printable width |
| PosterScript.HeightAtScale | poster.py:183 | The same for heights: `h` times the common vertical scale, positive and at most the printable height |
| PosterScript.PlacementAnchor | poster.py:173-184 | Rows other than the last sit on the bottom margin; the last row is raised by a non-negative blank offset that brings its top exactly to the printable top |
| PosterScript.PageAt | poster.py:155-234 | The page of a grid position has its image inside the printable area and inside the dashed frame drawn around it |
| PosterScript.PagePlacement | poster.py:155-184 | The page of a grid position shows that tile's crop box from the left margin, placed at the common scale; rows above the last sit on the bottom margin, and the last row's top meets the printable top |
| PosterScript.ContentMatchesImage | poster.py:191-201 | The guide extents, computed separately in the source, coincide with the placed image's edges |
| PosterScript.WidthConvertsAfterScaling | poster.py:194-195 | The guide extent, scaled in inches and then converted to points, equals the image width scaled in points |
| PosterScript.HeightConvertsAfterScaling | poster.py:197-201 | The same for the vertical extent and the image height |
| PosterScript.GuideRules | poster.py:194-215 | Each of the four guides exists exactly when there is a neighbour on that side, at the overlap distance from its printable edge, spanning only the placed image |
| PosterScript.BorderRule | poster.py:217-232 | The dashed frame runs from the left margin to the printable top; it shrinks to the image on the last column and rises to it on the last row, and it always encloses the image |
| PosterScript.Document | poster.py:153-238 | The PDF has `rows * cols` pages, page `i` being the page of the `i`-th position of the row-major loop; it has a page at all exactly when the poster is larger than the overlap both ways |
| PosterScript.Render | poster.py:137-158 | A zero pixel height fails at the aspect ratio; otherwise the run succeeds exactly when the poster has a pixel each way and both advances are nonzero, and then its pages are exactly the document: as many as the loop over the reported grid visits, page i at cell i. A zero-pixel width fails at the resize, a zero advance at the count |
| PosterScript.DocumentRowMajor | poster.py:155-168 | Page `i` shows grid position `(i / cols, i % cols)`, which is inside the grid, and is labelled `i + 1` |
| PosterScript.DocumentHasEveryCell | poster.py:155-156 | Every grid position has its page at index `row * cols + col` |
| PosterOrientation.Decide | poster.py:278-286 | With rotation disabled nothing changes; otherwise the decision fails exactly when either count fails, and a rotation swaps only the poster dimensions for the rest of the run |
| PosterOrientation.DecideIsStableMinimum | poster.py:283-286 | The poster is turned exactly when the compared turned count is strictly smaller; ties keep the upright orientation |
| PosterOrientation.Preview | poster.py:288-294 | The preview fails when the decision fails; otherwise it is the count of the upright setup, or of the turned one with the margins as given when the decision rotates |
| PosterOrientation.EqualMarginsKeepPromise | poster.py:278-294 | With equal margins a rotation never makes the previewed grid larger than the upright one |
| PosterOrientation.RotationCanAddPages | poster.py:280-290 | A 9 x 5 inch poster at 10 dpi, overlap 0.5, margins 2 and 1.5 needs 3 sheets upright; the comparison predicts 2 and rotates; the rotated run then takes 4 |
| PosterOrientation.DecideByRenderedGrid | poster.py:278-286 | The corrected decision compares with the grid that will be rendered; its chosen setup follows the decision |
| PosterOrientation.RenderedDecisionNeverAddsPages | poster.py:278-294 | Under the corrected decision the rendered grid never has more sheets than the upright one, and a rotation always saves at least one |
| ImposterScript.PrintableArea | imposter.py:33-34 | The fixed 0.25 inch margin leaves 8 by 10.5 inches, 576 by 756 points, starting 18 points in |
| ImposterScript.GridCount | imposter.py:58-63 | The floor/mod count fails exactly when a sheet and the overlap have the same pixel size |
| ImposterScript.GridCountAgrees | imposter.py:36-63 | The pixel layout and count equal the later script's at margin 0.25, and on a valid setup they are the least covering grid |
| ImposterScript.SegmentFacts | imposter.py:67-79 | Every cropped segment is between one pixel and one sheet in each direction |
| ImposterScript.PlacementScale | imposter.py:83-89 | Segments are drawn 18 points in at 576 and 756 points per sheet of pixels; the last row is raised by exactly the overlap, whatever its height |
| ImposterScript.WidthAtScale | imposter.py:87 | A segment `w` pixels wide is drawn at 576 points per sheet of pixels, positive and at most 576 points when it is one pixel up to a sheet wide |
| ImposterScript.HeightAtScale | imposter.py:88 | A segment `h` pixels high is drawn at 756 points per sheet of pixels, positive and at most 756 points when it is one pixel up to a sheet high |
| ImposterScript.PageAt | imposter.py:67-135 | The page's image starts at the left margin and ends inside the printable width; on every row but the last it lies inside the frame; the cut marks run along the image's right edge and where its blank share ends |
| ImposterScript.PagePlacement | imposter.py:67-89 | The page shows that tile's crop box 18 points in, on the bottom margin except on the last row, which is raised by the overlap; rows above the last lie inside the frame |
| ImposterScript.LastRowTop | imposter.py:86-88 | The last row's top misses the printable top by the overlap less the blank share; a full-height last row overshoots it by the whole overlap |
| ImposterScript.FullHeight | imposter.py:88 | A segment as high as the sheet fills the whole 756-point printable height |
| ImposterScript.GuideRules | imposter.py:96-117 | Each guide exists exactly when there is a neighbour on that side and spans the whole printable area; the frame is the full printable rectangle on every page |
| ImposterScript.CutPositions | imposter.py:125-135 | The vertical cut mark is on the segment's right edge, and the horizontal one is where its blank share ends below the printable top; both lie inside the frame |
| ImposterScript.CutXIsRightEdge | imposter.py:125-127 | The vertical cut mark lies 18 points plus the segment's drawn width from the page edge |
| ImposterScript.CutYMeetsHeight | imposter.py:131-135 | The horizontal cut mark plus the segment's drawn height is the printable top, 774 points |
| ImposterScript.CutMarks | imposter.py:125-135 | A vertical cut mark exists exactly on the last column and a horizontal one exactly on the last row, each across the printable area |
| ImposterScript.Document | imposter.py:67-137 | The PDF has `rows * cols` pages in row-major loop order, and a page at all exactly when the poster is larger than the overlap both ways |
| ImposterScript.Render | imposter.py:47-63 | A zero pixel height fails at the aspect ratio; otherwise the run succeeds exactly when the poster has a pixel each way and both advances are nonzero, and then its pages are exactly the document, as many as the reported grid has. A zero-pixel width fails at the resize, a zero advance at the count |
| SplitScript.SheetIsWholePage | poster_split.py:8 | The sheet is the whole 612 by 792 point page |
| SplitScript.GridCount | poster_split.py:19-24 | The floor/mod count fails exactly when a sheet and the overlap have the same pixel size |
| SplitScript.GridCountAgrees | poster_split.py:8-24 | The pixel layout and count equal the later script's with zero margins, and on a valid setup they are the least covering grid |
| SplitScript.PageAt | poster_split.py:30-61 | Each page shows a non-empty piece of the poster, at most a page of pixels each way, drawn over the whole 612 by 792 point page from the origin |
| SplitScript.GuidesMirrorPosterScript | poster_split.py:50-61 | Against the later script at zero margins: the same crop box and vertical guides, with the horizontal guides mirrored top to bottom |
| SplitScript.ImageAgainstPosterScript | poster_split.py:38-43 | Against the later script at zero margins: the same image rectangle on a full tile, a strictly smaller one on a partial tile |
| SplitScript.ZeroMarginWidth | poster_split.py:8-13 | At zero margins the later script's width is the full page width exactly for a whole sheet, less otherwise |
| SplitScript.ZeroMarginHeight | poster_split.py:8-13 | At zero margins the later script's height is the full page height, with no offset, for a whole sheet, less otherwise |
| SplitScript.StretchedPlacement | poster_split.py:38-43 | Every segment, partial edge tiles included, is drawn over the whole page at the origin |
| SplitScript.PartialTileMagnified | poster_split.py:30-43 | A partial edge tile is drawn at strictly more points per pixel than a full one, so the scale is not uniform |
| SplitScript.GuideRules | poster_split.py:50-61 | Solid guides across the page exist exactly when there is a neighbour on that side; the horizontal ones follow the opposite row convention from the later script |
| SplitScript.Document | poster_split.py:28-63 | The PDF has `rows * cols` pages in row-major loop order, and a page at all exactly when the poster is larger than the overlap both ways |
| SplitScript.Render | poster_split.py:17-24 | The resize refuses a poster under one pixel; otherwise the run succeeds exactly when both advances are nonzero, and then its pages are exactly the document, as many as the counted grid has; a zero advance fails at the count |
| SplitScript.DocumentRowMajor | poster_split.py:28-29 | Page `i` shows grid position `(i / cols, i % cols)`, inside the grid |
| Text.LowerIdempotent | poster.py:36 | Lower-casing an already lower-cased string changes nothing |
| Text.Split | poster.py:36 | `split` gives one more piece than there are separators, and no piece contains a separator |
| Text.JoinSplit | poster.py:36 | Joining the pieces with the separator gives back the string |
| Text.SplitJoin | poster.py:48 | Splitting a join of separator-free pieces gives back the pieces |
| Text.ContainsIffWindow | postergen.py:71 | `needle in haystack` holds exactly when some window of the haystack equals the needle |
| Text.RStripRemovesTrailingSpace | postergen.py:212 | `rstrip` gives a prefix, drops exactly the trailing whitespace and leaves no whitespace at the end |
| Text.LStripRemovesLeadingSpace | poster.py:86-88 | `lstrip` gives a suffix, drops exactly the leading whitespace and leaves no whitespace at the start |
| Text.Remove | postergen.py:58 | `replace(c, '')` removes every occurrence and only those: the length drops by the count of `c` |
| PosterArgs.ParseSize | poster.py:33-43 | A size parses exactly when its lower-cased text has two pieces around one `x`, each a number; every failure reports the original text |
| PosterArgs.SizeRoundTrip | poster.py:33-43 | `W` + `x` or `X` + `H` parses back to the numbers of `W` and `H` |
| PosterArgs.SizeShape | poster.py:36-41 | A size that parses is two `x`-free pieces joined by one `x`, and its numbers are theirs |
| PosterArgs.SizeIgnoresCase | poster.py:36 | Upper-case letters in the size make no difference to the outcome |
| PosterArgs.ParseMargin | poster.py:45-59 | A single value is both margins, two or more commas is an error, every failure reports the text; no lower-casing |
| PosterArgs.MarginPair | poster.py:52-55 | `X,Y` parses exactly when both are numbers, giving them in order |
| PosterArgs.PyIntOfDigitPair | poster.py:86-88 | `int(pair, 16)` of two hexadecimal digits is the byte they spell |
| PosterArgs.PyIntOfSignedDigit | poster.py:86 | `int` also accepts a sign: `-` and one hexadecimal digit is that digit negated |
| PosterArgs.ParseHexPairs | poster.py:85-89 | A failure of the pairwise read is reported as a bad hexadecimal number |
| PosterArgs.ParseColor | poster.py:80-97 | `#` with a length other than six is a format error; a name is looked up lower-cased and succeeds exactly when the lookup does |
| PosterArgs.HexColorChannels | poster.py:82-90 | `#RRGGBB` of hexadecimal digits gives each pair's byte over 255, a fraction in `[0, 1]` |
| PosterArgs.SignedRedPair | poster.py:84-90 | `#-` followed by five hexadecimal digits is accepted; red is minus the first digit over 255, so negative whenever that digit is not 0 (e.g. `#-f0000`) |
| PosterArgs.SignedPairs | poster.py:85-89 | A sign and one digit, then two digit pairs, read pairwise: minus the digit, then each pair's byte, over 255 |
| PosterArgs.ParseColorStrict | poster.py:80-97 | The corrected parser only accepts what the original accepts, and every hex colour it accepts has all channels in `[0, 1]` |
| PosterArgs.StrictRefusesSign | poster.py:84-90 | The corrected parser refuses `#-f0000` as a bad hexadecimal number |
| PosterArgs.PairRefusesUnderscore | poster.py:86-88 | `int(pair, 16)` refuses any two-character pair holding an underscore, so the original parser already rejects underscores in a colour |
| PosterArgs.SpacedPair | poster.py:86-88 | `int(pair, 16)` accepts leading whitespace: the pair ` f` reads as 15 |
| PosterArgs.HexRoundTrip | poster.py:82-90 | Formatting three bytes as `#rrggbb` and parsing gives each byte over 255 |
| TextPoster.ParseLineFormatting | postergen.py:183-201 | The empty line is centred at size 1.0. A directive first character is removed and only it is inspected. Any other line is unchanged and centred. The text is the line or the line less one character |
| TextPoster.FormattingRoundTrip | postergen.py:183-201 | The prefix for any of the five formats, followed by text, parses back to that text and format, provided an unprefixed line does not itself start with a directive |
| TextPoster.EntriesOfLine | postergen.py:216-233 | A blank line becomes a spacer, a line left empty by its directive contributes nothing, and any other line contributes one text entry with the directive's text, alignment and size |
| TextPoster.Entries | postergen.py:214-233 | At most one entry per line |
| TextPoster.EntriesAreSpacersOrText | postergen.py:214-233 | Spacer entries are exactly the empty-flagged ones, and every other entry has non-empty text |
| TextPoster.EntriesConcat | postergen.py:214-233 | The entries of consecutive lines are the entries of each part, in order |
| TextPoster.TextEntriesIffLines | postergen.py:214-242 | There is a text entry exactly when some line keeps text after its directive |
| TextPoster.Classify | postergen.py:210-242 | The file is an error with no content exactly when it yields no entries; on success the entries are those of the right-stripped lines |
| TextPoster.ClassifySucceedsIffText | postergen.py:210-242 | The file is accepted exactly when some right-stripped line keeps text after its directive |
| TextPoster.MatchIsContainment | postergen.py:56-71 | The three name tests together are equivalent to containment of the normalised name in the normalised stem |
| TextPoster.MatchIndex | postergen.py:59-74 | The first matching font in list order: it matches and none before it does |
| TextPoster.FindFontPath | postergen.py:56-74 | The lookup finds a path exactly when some font matches, and returns the path of the first one |
| TextPoster.FoundIffSomeMatch | postergen.py:56-74 | A path is found if and only if some font in the list passes a test |
| TextPoster.PartialMatchWins | postergen.py:59-71 | An earlier partial match (`arialbd`) wins over a later exact one (`arial`) |
| TextPoster.FoundIndex | postergen.py:265-276 | The first common font that finds a path: it finds one and none before it does |
| TextPoster.FirstFound | postergen.py:265-276 | The common-font loop stops at the first name that finds a path and gives that path, or nothing |
| TextPoster.ResolveFont | postergen.py:257-278 | The requested font when given and found; otherwise the first common font found; nothing exactly when neither finds a path |
| TextPoster.XPosition | postergen.py:359-364 | Left gives the margin as left gap; right gives the margin as right gap; centred leaves a right gap equal to the left one or one pixel more |
| TextPoster.CenterGapsByParity | postergen.py:363-364 | The centred line's two gaps differ by the parity of the spare width |
| TextPoster.ColorByName | postergen.py:493-504 | A known lower-cased name gives its table colour, anything else white; all channels are 0 or 255 |
| TextPoster.ColorIgnoresCase | postergen.py:504 | Upper-case letters in a colour name make no difference |
| TextPoster.ColorTableInjective | postergen.py:494-503 | No two names of the table share a colour |

## Left out

- Image work with PIL is left out. This covers opening, converting,
  thresholding, resizing, rotating and cropping. A segment's size is taken as
  its crop box's `right - left` by `lower - upper`.
- reportlab drawing is modelled as returned data, not as calls:
  - `drawInlineImage`, `line` and the rectangle helper become a page's fields;
  - `setDash`, `setLineWidth`, `setStrokeColor`, `showPage` and `save` are not
    modelled;
  - page labels (`drawString`) are modelled only as `poster.py`'s page number.
- `float()` is a parameter of the size and margin parsers (`num`), because
  Dafny has no IEEE floats. Inch lengths are exact rationals. The pixel
  conversion truncates them exactly, where Python truncates a rounded float
  product.
- Named reportlab colours are a parameter of the colour parser (`named`).
  The table is an external attribute lookup.
- Python's `int(_, 16)` is modelled over ASCII digits only. Unicode decimal
  digits are left out.
- `str.lower` is modelled on ASCII letters only. `isspace` is modelled on
  Python's full whitespace set.
- The aspect-ratio comparison and its warning are left out; only the
  division by a zero pixel height, which raises, is modelled (`Render`).
- Progress `print`s, `argparse`, `sys.exit` and file reading and writing are
  left out. The text file is given as its list of lines.
- `get_system_fonts` and `list_fonts` are left out. The font list is a
  parameter of the lookup.
- `calculate_optimal_font_size` and the vertical text layout are left out.
  Both depend entirely on font metrics and float heights.
- The page geometry is modelled only for valid setups.
  - Valid is `dpi > 0`, a poster of at least one pixel each way, and
    `0 <= overlap < sheet` in pixels.
  - Other setups are modelled as far as the count, including the
    zero-advance failure, and as far as `Render`'s failures.
- PosterScript.Render: assumes a positive resolution and an overlap of zero
  up to a sheet in pixels; a negative resolution or overlap, or a larger
  overlap, is not modelled. It starts after the line colour is parsed, which
  `PosterArgs.ParseColor` models.
- ImposterScript.Render: the same assumptions on resolution and overlap.
- SplitScript.Render: the same assumptions on resolution and overlap.
- PosterScript.Document: a poster no larger than the overlap gives the empty
  sequence of pages; what the PDF library writes for a canvas with no pages is
  not modelled. The same holds for the other two scripts' documents.
- PyMath.CeilOfQuotient: takes the exact quotient. Python's `/` first rounds it
  to a double. The two agree while the operands are below 2^53. Beyond that
  they can differ (`math.ceil((2**53 + 1) / 1)` is `2**53`), and a quotient
  too large for a double raises `OverflowError`.
- Tiling.CountFormsAgree: holds for exact quotients, so for pixel counts
  below 2^53; beyond that the float form can differ, as above.
- `TextPoster.FirstFound`: when no common font is found, the source leaves the
  last lookup's result, which `find_font_path` makes `None` (its paths come
  from `str` of a globbed file, never empty). The model returns `None` too.
  Only for an arbitrary `lookup` parameter could the last result be an empty
  path that the model drops; both then select the default font.

## Findings

| source | as written | input that shows it | evidently intended | confidence | as-written member | corrected member |
|---|---|---|---|---|---|---|
| poster.py:280-290 | The rotated count is computed with the margins swapped. The preview and the renderer then use the margins as given. | 9 x 5 inch poster, 10 dpi, overlap 0.5, margins 2 across and 1.5 down: 3 sheets upright, 2 predicted turned, 4 rendered | Rotate only when the grid that will actually be rendered is smaller | high; not executed | PosterOrientation.RotationCanAddPages | PosterOrientation.RenderedDecisionNeverAddsPages |
| poster.py:84-90 | Each pair of a `#` colour is read with `int(pair, 16)`. That also accepts a sign or surrounding whitespace (`#-f0000`, `# f0000`). An underscore is refused on a two-character pair either way. | `#-f0000` gives a red channel of -15/255 | Accept only six hexadecimal digits, so every channel is in `[0, 1]` | high; not executed | PosterArgs.SignedRedPair | PosterArgs.ParseColorStrict |

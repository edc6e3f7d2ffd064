/** The command-line value parsers of the poster script: the poster size
    `WIDTHxHEIGHT`, the margin `X,Y` or `M`, and the guide-line colour
    (`#RRGGBB` or a colour name). Python's `float()` is the parameter `num`
    and the table of named colours is the parameter `named`. */
module PosterArgs {
  import opened Wrappers
  import Text

  datatype ArgError = InvalidSize(size: string) | InvalidMargin(margin: string)

  /** Exactly two pieces around an `x`, after lower-casing, each a number. */
  function ParseSize(s: string, num: string -> Option<real>): (r: Result<(real, real), ArgError>)
    ensures r.Failure? ==> r.error == InvalidSize(s)
    ensures r.Success? <==>
              (|Text.Split(Text.Lower(s), 'x')| == 2 &&
               num(Text.Split(Text.Lower(s), 'x')[0]).Some? &&
               num(Text.Split(Text.Lower(s), 'x')[1]).Some?)
  {
    var parts := Text.Split(Text.Lower(s), 'x');
    if |parts| != 2 then Failure(InvalidSize(s))
    else match (num(parts[0]), num(parts[1]))
      case (Some(w), Some(h)) => Success((w, h))
      case _ => Failure(InvalidSize(s))
  }

  /** Writing the size as `W x H` (either case of `x`) parses back to the
      numbers of its two halves. */
  lemma SizeRoundTrip(w: string, h: string, sep: char, num: string -> Option<real>)
    requires sep == 'x' || sep == 'X'
    requires 'x' !in Text.Lower(w) && 'x' !in Text.Lower(h)
    requires num(Text.Lower(w)).Some? && num(Text.Lower(h)).Some?
    ensures ParseSize(w + [sep] + h, num) == Success((num(Text.Lower(w)).value, num(Text.Lower(h)).value))
  {
    Text.LowerConcat(w + [sep], h);
    Text.LowerConcat(w, [sep]);
    assert Text.Lower([sep]) == ['x'];
    Text.SplitJoin([Text.Lower(w), Text.Lower(h)], 'x');
    assert Text.Join([Text.Lower(w), Text.Lower(h)], 'x') == Text.Lower(w) + ['x'] + Text.Lower(h);
  }

  /** A size that parses is two pieces joined by an `x` once lower-cased, and
      its numbers are those of the pieces. */
  lemma SizeShape(s: string, num: string -> Option<real>)
    requires ParseSize(s, num).Success?
    ensures exists w, h :: Text.Lower(s) == w + ['x'] + h && 'x' !in w && 'x' !in h &&
                          num(w).Some? && num(h).Some? &&
                          ParseSize(s, num).value == (num(w).value, num(h).value)
  {
    var parts := Text.Split(Text.Lower(s), 'x');
    Text.JoinSplit(Text.Lower(s), 'x');
    assert Text.Join(parts, 'x') == parts[0] + ['x'] + parts[1];
    assert Text.Lower(s) == parts[0] + ['x'] + parts[1];
  }

  /** Upper-case letters make no difference to the result. */
  lemma SizeIgnoresCase(s: string, num: string -> Option<real>)
    ensures ParseSize(s, num).Success? == ParseSize(Text.Lower(s), num).Success?
    ensures ParseSize(s, num).Success? ==> ParseSize(s, num).value == ParseSize(Text.Lower(s), num).value
  {
    Text.LowerIdempotent(s);
  }

  /** One value is both margins, two comma-separated values are the horizontal
      and vertical margins, anything else is an error. No lower-casing. */
  function ParseMargin(s: string, num: string -> Option<real>): (r: Result<(real, real), ArgError>)
    ensures r.Failure? ==> r.error == InvalidMargin(s)
    ensures Text.Count(s, ',') >= 2 ==> r.Failure?
    ensures Text.Count(s, ',') == 0 ==>
              (r.Success? <==> num(s).Some?) && (r.Success? ==> r.value == (num(s).value, num(s).value))
  {
    var parts := Text.Split(s, ',');
    if |parts| == 1 then
      (Text.JoinSplit(s, ',');
       match num(parts[0])
         case Some(m) => Success((m, m))
         case None => Failure(InvalidMargin(s)))
    else if |parts| == 2 then
      match (num(parts[0]), num(parts[1]))
        case (Some(x), Some(y)) => Success((x, y))
        case _ => Failure(InvalidMargin(s))
    else Failure(InvalidMargin(s))
  }

  /** `X,Y` gives the two margins in order. */
  lemma MarginPair(x: string, y: string, num: string -> Option<real>)
    requires ',' !in x && ',' !in y
    ensures ParseMargin(x + [','] + y, num).Success? <==> num(x).Some? && num(y).Some?
    ensures ParseMargin(x + [','] + y, num).Success? ==>
              ParseMargin(x + [','] + y, num).value == (num(x).value, num(y).value)
  {
    Text.SplitJoin([x, y], ',');
    assert Text.Join([x, y], ',') == x + [','] + y;
  }

  // ---------------------------------------------------------------------
  // Colours

  /** A reportlab colour: red, green and blue as fractions. */
  datatype Rgb = Rgb(red: real, green: real, blue: real)

  datatype ColorError = BadHexLength(color: string) | BadHexNumber(color: string) | UnknownColor(color: string)

  /** The digits after the optional prefix: hexadecimal digits with single
      underscores between them. */
  predicate WellGrouped(v: string)
  {
    |v| > 0 && Text.IsHexDigit(v[0]) && Text.IsHexDigit(v[|v| - 1]) &&
    (forall i :: 0 <= i < |v| ==> Text.IsHexDigit(v[i]) || v[i] == '_') &&
    (forall i :: 0 <= i < |v| - 1 ==> !(v[i] == '_' && v[i + 1] == '_'))
  }

  /** The value of hexadecimal digits, underscores skipped. */
  function HexValue(v: string): nat
    requires forall i :: 0 <= i < |v| ==> Text.IsHexDigit(v[i]) || v[i] == '_'
  {
    if v == [] then 0
    else if v[|v| - 1] == '_' then HexValue(v[..|v| - 1])
    else 16 * HexValue(v[..|v| - 1]) + Text.HexDigitValue(v[|v| - 1])
  }

  /** The text after one optional sign. */
  function Unsigned(t: string): string
  {
    if |t| > 0 && (t[0] == '+' || t[0] == '-') then t[1..] else t
  }

  /** The text after an optional `0x`/`0X` prefix and the one underscore
      allowed right after it. */
  function AfterPrefix(u: string): string
  {
    if |u| >= 2 && u[0] == '0' && (u[1] == 'x' || u[1] == 'X') then
      (if |u| >= 3 && u[2] == '_' then u[3..] else u[2..])
    else u
  }

  /** Python's `int(s, 16)`: surrounding whitespace, one optional sign, an
      optional `0x`/`0X` prefix, then hexadecimal digits with single
      underscores between them. */
  function PyIntBase16(s: string): Option<int>
  {
    var t := Text.Strip(s);
    var digits := AfterPrefix(Unsigned(t));
    if WellGrouped(digits) then
      Some(if |t| > 0 && t[0] == '-' then -(HexValue(digits) as int) else HexValue(digits))
    else None
  }

  /** Two hexadecimal digits read as the byte they spell. */
  lemma PyIntOfDigitPair(p: string)
    requires |p| == 2 && Text.IsHexDigit(p[0]) && Text.IsHexDigit(p[1])
    ensures PyIntBase16(p) == Some(16 * Text.HexDigitValue(p[0]) + Text.HexDigitValue(p[1]))
  {
    Text.HexDigitNotSpace(p[0]);
    Text.HexDigitNotSpace(p[1]);
    Text.StripKeeps(p);
    assert Unsigned(p) == p;
    assert AfterPrefix(p) == p;
    assert WellGrouped(p);
    assert p[..1] == [p[0]];
    assert [p[0]][..0] == [];
    assert HexValue([p[0]]) == Text.HexDigitValue(p[0]);
  }

  /** A sign before one hexadecimal digit negates it. */
  lemma PyIntOfSignedDigit(p: string)
    requires |p| == 2 && p[0] == '-' && Text.IsHexDigit(p[1])
    ensures PyIntBase16(p) == Some(-(Text.HexDigitValue(p[1]) as int))
  {
    Text.HexDigitNotSpace(p[1]);
    Text.StripKeeps(p);
    var d := p[1..];
    assert Unsigned(p) == d;
    assert AfterPrefix(d) == d;
    assert WellGrouped(d);
    assert d[..0] == [];
    assert HexValue(d) == Text.HexDigitValue(p[1]);
  }

  function Channel(n: int): real
  {
    n as real / 255.0
  }

  /** The six characters after `#`, read pairwise with `int(_, 16)`. A pair
      that `int` refuses fails with the whole colour text: the script's own
      message names the failing pair, and which text the error carries is
      this model's choice. */
  function ParseHexPairs(s: string, hex: string): (r: Result<Rgb, ColorError>)
    requires |hex| == 6
    ensures r.Failure? ==> r.error == BadHexNumber(s)
  {
    match (PyIntBase16(hex[0..2]), PyIntBase16(hex[2..4]), PyIntBase16(hex[4..6]))
      case (Some(r), Some(g), Some(b)) => Success(Rgb(Channel(r), Channel(g), Channel(b)))
      case _ => Failure(BadHexNumber(s))
  }

  /** Parse a colour the way the script does: `#` and six characters read
      pairwise with `int(_, 16)`, otherwise a colour name, case-insensitive. */
  function ParseColor(s: string, named: string -> Option<Rgb>): (r: Result<Rgb, ColorError>)
    ensures |s| > 0 && s[0] == '#' && |s| != 7 ==> r == Failure(BadHexLength(s))
    ensures (|s| == 0 || s[0] != '#') ==>
              (r.Success? <==> named(Text.Lower(s)).Some?) &&
              (r.Success? ==> r.value == named(Text.Lower(s)).value) &&
              (r.Failure? ==> r.error == UnknownColor(s))
  {
    if |s| > 0 && s[0] == '#' then
      if |s| == 7 then ParseHexPairs(s, s[1..]) else Failure(BadHexLength(s))
    else
      match named(Text.Lower(s))
        case Some(c) => Success(c)
        case None => Failure(UnknownColor(s))
  }

  predicate InUnitRange(c: Rgb)
  {
    0.0 <= c.red <= 1.0 && 0.0 <= c.green <= 1.0 && 0.0 <= c.blue <= 1.0
  }

  /** The byte two hexadecimal digits spell, over 255. */
  function PairChannel(hi: char, lo: char): real
    requires Text.IsHexDigit(hi) && Text.IsHexDigit(lo)
  {
    Channel(16 * Text.HexDigitValue(hi) + Text.HexDigitValue(lo))
  }

  /** `#RRGGBB` with six hexadecimal digits gives each pair's byte over 255,
      a fraction between 0 and 1. */
  lemma HexColorChannels(s: string, named: string -> Option<Rgb>)
    requires |s| == 7 && s[0] == '#'
    requires forall i :: 1 <= i < 7 ==> Text.IsHexDigit(s[i])
    ensures ParseColor(s, named) ==
              Success(Rgb(PairChannel(s[1], s[2]), PairChannel(s[3], s[4]), PairChannel(s[5], s[6])))
    ensures InUnitRange(ParseColor(s, named).value)
  {
    var hex := s[1..];
    assert hex[0..2] == [s[1], s[2]] && hex[2..4] == [s[3], s[4]] && hex[4..6] == [s[5], s[6]];
    PairsOfDigits(s, hex);
    ByteChannel(s[1], s[2]);
    ByteChannel(s[3], s[4]);
    ByteChannel(s[5], s[6]);
  }

  lemma PairsOfDigits(s: string, hex: string)
    requires |hex| == 6
    requires Text.IsHexDigit(hex[0]) && Text.IsHexDigit(hex[1]) && Text.IsHexDigit(hex[2])
    requires Text.IsHexDigit(hex[3]) && Text.IsHexDigit(hex[4]) && Text.IsHexDigit(hex[5])
    ensures ParseHexPairs(s, hex) ==
              Success(Rgb(PairChannel(hex[0], hex[1]), PairChannel(hex[2], hex[3]), PairChannel(hex[4], hex[5])))
  {
    var p0, p1, p2 := hex[0..2], hex[2..4], hex[4..6];
    PyIntOfDigitPair(p0);
    PyIntOfDigitPair(p1);
    PyIntOfDigitPair(p2);
    var r, g, b := PyIntBase16(p0).value, PyIntBase16(p1).value, PyIntBase16(p2).value;
    assert Channel(r) == PairChannel(hex[0], hex[1]);
    assert Channel(g) == PairChannel(hex[2], hex[3]);
    assert Channel(b) == PairChannel(hex[4], hex[5]);
  }

  lemma ByteChannel(hi: char, lo: char)
    requires Text.IsHexDigit(hi) && Text.IsHexDigit(lo)
    ensures 0.0 <= PairChannel(hi, lo) <= 1.0
  {
    var n := 16 * Text.HexDigitValue(hi) + Text.HexDigitValue(lo);
    assert 0 <= n <= 255;
  }

  /** Seven characters starting with `#` go to the pairwise reader. */
  lemma HexBranch(s: string, named: string -> Option<Rgb>)
    requires |s| == 7 && s[0] == '#'
    ensures ParseColor(s, named) == ParseHexPairs(s, s[1..])
  {
  }

  /** The sign `int()` accepts lets a six-character colour through: `#-`
      and five hexadecimal digits parse, and the red channel is minus one
      digit over 255, negative unless that digit is 0 (`#-f0000` has red
      -15/255). */
  lemma SignedRedPair(s: string, named: string -> Option<Rgb>)
    requires |s| == 7 && s[0] == '#' && s[1] == '-'
    requires forall i :: 2 <= i < 7 ==> Text.IsHexDigit(s[i])
    ensures ParseColor(s, named) ==
              Success(Rgb(Channel(-(Text.HexDigitValue(s[2]) as int)), PairChannel(s[3], s[4]), PairChannel(s[5], s[6])))
    ensures Text.HexDigitValue(s[2]) > 0 ==> ParseColor(s, named).value.red < 0.0
  {
    var hex := s[1..];
    assert hex[0] == '-' && hex[1] == s[2] && hex[2] == s[3] && hex[3] == s[4] && hex[4] == s[5] && hex[5] == s[6];
    HexBranch(s, named);
    SignedPairs(s, hex);
  }

  lemma SignedPairs(s: string, hex: string)
    requires |hex| == 6 && hex[0] == '-' && Text.IsHexDigit(hex[1])
    requires Text.IsHexDigit(hex[2]) && Text.IsHexDigit(hex[3])
    requires Text.IsHexDigit(hex[4]) && Text.IsHexDigit(hex[5])
    ensures ParseHexPairs(s, hex) ==
              Success(Rgb(Channel(-(Text.HexDigitValue(hex[1]) as int)), PairChannel(hex[2], hex[3]), PairChannel(hex[4], hex[5])))
  {
    var p0, p1, p2 := hex[0..2], hex[2..4], hex[4..6];
    PyIntOfSignedDigit(p0);
    PyIntOfDigitPair(p1);
    PyIntOfDigitPair(p2);
    var r, g, b := PyIntBase16(p0).value, PyIntBase16(p1).value, PyIntBase16(p2).value;
    assert Channel(g) == PairChannel(hex[2], hex[3]);
    assert Channel(b) == PairChannel(hex[4], hex[5]);
  }

  /** On a two-character pair an underscore is never accepted: it needs a
      digit on both sides, or the `0x` prefix before it. */
  lemma PairRefusesUnderscore(p: string)
    requires |p| == 2 && (p[0] == '_' || p[1] == '_')
    ensures PyIntBase16(p).None?
  {
    assert !Text.IsSpace('_');
    var t := Text.Strip(p);
    if p[0] == '_' {
      assert Text.RStrip(p) == p || Text.RStrip(p) == p[..1];
      assert t == Text.RStrip(p);
      assert Unsigned(t) == t && AfterPrefix(t) == t;
    } else {
      assert Text.RStrip(p) == p;
      assert Text.LStrip(p[1..]) == p[1..];
      assert t == p || t == p[1..];
      assert t[|t| - 1] == '_';
    }
  }

  /** Leading whitespace is accepted: the pair ` f` reads as 15. */
  lemma SpacedPair()
    ensures PyIntBase16(" f") == Some(15)
  {
  }

  /** The colour parser with the hexadecimal branch restricted to six
      hexadecimal digits, so a sign or whitespace is refused (an underscore
      already is, by `PairRefusesUnderscore`). */
  function ParseColorStrict(s: string, named: string -> Option<Rgb>): (r: Result<Rgb, ColorError>)
    ensures |s| > 0 && s[0] == '#' && r.Success? ==> InUnitRange(r.value)
    ensures r.Success? ==> ParseColor(s, named) == r
  {
    if |s| > 0 && s[0] == '#' then
      if |s| != 7 then Failure(BadHexLength(s))
      else if forall i | 1 <= i < 7 :: Text.IsHexDigit(s[i]) then
        HexColorChannels(s, named);
        ParseColor(s, named)
      else Failure(BadHexNumber(s))
    else ParseColor(s, named)
  }

  /** The strict parser refuses the signed colour. */
  lemma StrictRefusesSign(named: string -> Option<Rgb>)
    ensures ParseColorStrict("#-f0000", named) == Failure(BadHexNumber("#-f0000"))
  {
    assert !Text.IsHexDigit("#-f0000"[1]);
  }

  /** `#RRGGBB` of three bytes. */
  function FormatHex(r: nat, g: nat, b: nat): (s: string)
    requires r < 256 && g < 256 && b < 256
    ensures |s| == 7 && s[0] == '#'
  {
    ['#', Text.HexDigit(r / 16), Text.HexDigit(r % 16), Text.HexDigit(g / 16),
     Text.HexDigit(g % 16), Text.HexDigit(b / 16), Text.HexDigit(b % 16)]
  }

  /** A formatted colour parses back to its bytes over 255. */
  lemma HexRoundTrip(r: nat, g: nat, b: nat, named: string -> Option<Rgb>)
    requires r < 256 && g < 256 && b < 256
    ensures ParseColorStrict(FormatHex(r, g, b), named) == Success(Rgb(Channel(r), Channel(g), Channel(b)))
  {
    var s := FormatHex(r, g, b);
    assert forall i | 1 <= i < 7 :: Text.IsHexDigit(s[i]);
    HexColorChannels(s, named);
    assert ParseColorStrict(s, named) == ParseColor(s, named);
    ByteDigits(r);
    ByteDigits(g);
    ByteDigits(b);
  }

  lemma ByteDigits(n: nat)
    requires n < 256
    ensures PairChannel(Text.HexDigit(n / 16), Text.HexDigit(n % 16)) == Channel(n)
  {
    assert 16 * (n / 16) + n % 16 == n;
  }
}

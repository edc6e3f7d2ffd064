/** The pure text helpers of the text-poster generator: the one-character
    line directives, the classification of the lines of a text file, the
    font lookup by name, the horizontal placement of a line and the fallback
    colour table. */
module TextPoster {
  import opened Wrappers
  import Text

  datatype Align = Left | Right | Center

  /** A line with its directive character removed. */
  datatype Directive = Directive(text: string, align: Align, modifier: real)

  /** Only the first character is a directive: `<` left, `>` right, `-`
      three quarters size, `+` one and a half size. */
  predicate IsDirectiveChar(c: char)
  {
    c == '<' || c == '>' || c == '-' || c == '+'
  }

  function ParseLineFormatting(line: string): (d: Directive)
    ensures line == [] ==> d == Directive([], Center, 1.0)
    ensures line != [] && IsDirectiveChar(line[0]) ==> d.text == line[1..]
    ensures line == [] || !IsDirectiveChar(line[0]) ==> d == Directive(line, Center, 1.0)
    ensures |d.text| == |line| || |d.text| == |line| - 1
    ensures d.align != Center ==> d.modifier == 1.0
  {
    if line == [] then Directive(line, Center, 1.0)
    else if line[0] == '<' then Directive(line[1..], Left, 1.0)
    else if line[0] == '>' then Directive(line[1..], Right, 1.0)
    else if line[0] == '-' then Directive(line[1..], Center, 0.75)
    else if line[0] == '+' then Directive(line[1..], Center, 1.5)
    else Directive(line, Center, 1.0)
  }

  /** The five formats a line can ask for. */
  predicate Expressible(align: Align, modifier: real)
  {
    modifier == 1.0 || (align == Center && (modifier == 0.75 || modifier == 1.5))
  }

  /** The directive character that asks for a format, if any is needed. */
  function Prefix(align: Align, modifier: real): string
    requires Expressible(align, modifier)
  {
    match align
      case Left => "<"
      case Right => ">"
      case Center => if modifier == 0.75 then "-" else if modifier == 1.5 then "+" else ""
  }

  /** Writing a line with the prefix for its format reads back the same line
      and format, unless a plain centred line itself starts with a directive
      character. */
  lemma FormattingRoundTrip(text: string, align: Align, modifier: real)
    requires Expressible(align, modifier)
    requires Prefix(align, modifier) == [] ==> text == [] || !IsDirectiveChar(text[0])
    ensures ParseLineFormatting(Prefix(align, modifier) + text) == Directive(text, align, modifier)
  {
    var line := Prefix(align, modifier) + text;
    if Prefix(align, modifier) != [] {
      assert line[1..] == text;
    } else {
      assert line == text;
    }
  }

  /** A line of the poster: text, or an empty line that only adds space. */
  datatype Entry = Entry(text: string, align: Align, modifier: real, isEmpty: bool)

  /** The blank spacing entry. */
  const Spacer: Entry := Entry([], Center, 1.0, true)

  /** What one already right-stripped line contributes. */
  function EntriesOfLine(line: string): (r: seq<Entry>)
    ensures |r| <= 1
    ensures line == [] <==> r == [Spacer]
    ensures r == [] <==> line != [] && ParseLineFormatting(line).text == []
    ensures line != [] && ParseLineFormatting(line).text != [] ==>
      var d := ParseLineFormatting(line);
      r == [Entry(d.text, d.align, d.modifier, false)]
  {
    if line == [] then [Spacer]
    else
      var d := ParseLineFormatting(line);
      if d.text == [] then [] else [Entry(d.text, d.align, d.modifier, false)]
  }

  /** The entries for right-stripped lines: a blank line is a spacer, a line
      left empty by its directive is dropped, any other line is text. */
  function Entries(lines: seq<string>): (r: seq<Entry>)
    ensures |r| <= |lines|
  {
    if lines == [] then [] else EntriesOfLine(lines[0]) + Entries(lines[1..])
  }

  /** Each entry is either the spacer or a line of text. */
  lemma {:induction false} EntriesAreSpacersOrText(lines: seq<string>)
    ensures forall k :: 0 <= k < |Entries(lines)| ==>
              (Entries(lines)[k].isEmpty <==> Entries(lines)[k] == Spacer) &&
              (!Entries(lines)[k].isEmpty ==> Entries(lines)[k].text != [])
  {
    if lines != [] {
      EntriesAreSpacersOrText(lines[1..]);
      var head, tail := EntriesOfLine(lines[0]), Entries(lines[1..]);
      forall k | 0 <= k < |Entries(lines)|
        ensures (Entries(lines)[k].isEmpty <==> Entries(lines)[k] == Spacer) &&
                (!Entries(lines)[k].isEmpty ==> Entries(lines)[k].text != [])
      {
        if k >= |head| {
          assert Entries(lines)[k] == tail[k - |head|];
        }
      }
    }
  }

  /** The entries of a file are the entries of its parts, in order. */
  lemma {:induction false} EntriesConcat(a: seq<string>, b: seq<string>)
    ensures Entries(a + b) == Entries(a) + Entries(b)
  {
    if a != [] {
      assert (a + b)[0] == a[0];
      assert (a + b)[1..] == a[1..] + b;
      EntriesConcat(a[1..], b);
    } else {
      assert a + b == b;
    }
  }

  /** Some entry carries text. */
  predicate HasTextEntry(es: seq<Entry>)
  {
    exists k :: 0 <= k < |es| && !es[k].isEmpty
  }

  /** Some line keeps text after its directive. */
  predicate HasTextLine(lines: seq<string>)
  {
    exists i :: 0 <= i < |lines| && HasText(lines[i])
  }

  lemma HasTextEntryConcat(a: seq<Entry>, b: seq<Entry>)
    ensures HasTextEntry(a + b) <==> HasTextEntry(a) || HasTextEntry(b)
  {
    if HasTextEntry(a + b) {
      var k :| 0 <= k < |a + b| && !(a + b)[k].isEmpty;
      if k >= |a| {
        assert !b[k - |a|].isEmpty;
      }
    }
    if HasTextEntry(b) {
      var k :| 0 <= k < |b| && !b[k].isEmpty;
      assert !(a + b)[|a| + k].isEmpty;
    }
    if HasTextEntry(a) {
      var k :| 0 <= k < |a| && !a[k].isEmpty;
      assert !(a + b)[k].isEmpty;
    }
  }

  lemma HasTextLineStep(lines: seq<string>)
    requires lines != []
    ensures HasTextLine(lines) <==> HasText(lines[0]) || HasTextLine(lines[1..])
  {
    if HasTextLine(lines) {
      var i :| 0 <= i < |lines| && HasText(lines[i]);
      if i > 0 {
        assert HasText(lines[1..][i - 1]);
      }
    }
    if HasTextLine(lines[1..]) {
      var i :| 0 <= i < |lines[1..]| && HasText(lines[1..][i]);
      assert HasText(lines[i + 1]);
    }
  }

  /** There is a text entry exactly when some line keeps text after its
      directive. */
  lemma {:induction false} TextEntriesIffLines(lines: seq<string>)
    ensures HasTextEntry(Entries(lines)) <==> HasTextLine(lines)
  {
    if lines != [] {
      TextEntriesIffLines(lines[1..]);
      HasTextLineStep(lines);
      HasTextEntryConcat(EntriesOfLine(lines[0]), Entries(lines[1..]));
      assert HasTextEntry(EntriesOfLine(lines[0])) <==> HasText(lines[0]) by {
        if HasText(lines[0]) {
          assert !EntriesOfLine(lines[0])[0].isEmpty;
        }
      }
    }
  }

  /** A line that still has text once its directive is removed. */
  predicate HasText(line: string)
  {
    line != [] && ParseLineFormatting(line).text != []
  }

  datatype ContentError = NoContent | NoTextContent

  /** The lines of a file, right-stripped and classified; an error when
      nothing, or nothing but spacing, is left. */
  function Classify(fileLines: seq<string>): (r: Result<seq<Entry>, ContentError>)
    ensures r.Success? ==> r.value == Entries(StripLines(fileLines))
    ensures r == Failure(NoContent) <==> Entries(StripLines(fileLines)) == []
  {
    var entries := Entries(StripLines(fileLines));
    if entries == [] then Failure(NoContent)
    else if forall k | 0 <= k < |entries| :: entries[k].isEmpty then Failure(NoTextContent)
    else Success(entries)
  }

  function StripLines(fileLines: seq<string>): (r: seq<string>)
    ensures |r| == |fileLines|
  {
    seq(|fileLines|, i requires 0 <= i < |fileLines| => Text.RStrip(fileLines[i]))
  }

  /** The file is accepted exactly when some line, right-stripped, has text
      after its directive. */
  lemma ClassifySucceedsIffText(fileLines: seq<string>)
    ensures Classify(fileLines).Success? <==>
              exists i :: 0 <= i < |fileLines| && HasText(Text.RStrip(fileLines[i]))
  {
    var lines := StripLines(fileLines);
    var entries := Entries(lines);
    TextEntriesIffLines(lines);
    assert Classify(fileLines).Success? <==> HasTextEntry(entries);
    if exists i :: 0 <= i < |fileLines| && HasText(Text.RStrip(fileLines[i])) {
      var i :| 0 <= i < |fileLines| && HasText(Text.RStrip(fileLines[i]));
      assert HasText(lines[i]);
    }
    if HasTextLine(lines) {
      var i :| 0 <= i < |lines| && HasText(lines[i]);
      assert HasText(Text.RStrip(fileLines[i]));
    }
  }

  // ---------------------------------------------------------------------
  // Fonts

  /** A font file: the file-name stem and the full path. */
  datatype FontFile = FontFile(stem: string, path: string)

  /** Lower case, without spaces and hyphens. */
  function Normalize(name: string): string
  {
    Text.Remove(Text.Remove(Text.Lower(name), ' '), '-')
  }

  /** The three tests, in the order they are tried. */
  predicate Matches(name: string, stem: string)
  {
    Text.Lower(stem) == Text.Lower(name) ||
    Normalize(stem) == Normalize(name) ||
    Text.Contains(Normalize(stem), Normalize(name))
  }

  /** The three tests together amount to the last one. */
  lemma MatchIsContainment(name: string, stem: string)
    ensures Matches(name, stem) <==> Text.Contains(Normalize(stem), Normalize(name))
  {
    if Text.Lower(stem) == Text.Lower(name) {
      assert Normalize(stem) == Normalize(name);
    }
    if Normalize(stem) == Normalize(name) {
      Text.ContainsItself(Normalize(stem));
    }
  }

  /** The position of the first font in list order that passes a test, or
      the length of the list when none does. */
  function MatchIndex(name: string, files: seq<FontFile>): (k: nat)
    ensures k <= |files|
    ensures k < |files| ==> Matches(name, files[k].stem)
    ensures forall j :: 0 <= j < k ==> !Matches(name, files[j].stem)
  {
    if files == [] then 0
    else if Matches(name, files[0].stem) then 0
    else 1 + MatchIndex(name, files[1..])
  }

  /** The path of the first font in list order that passes a test. */
  function FindFontPath(name: string, files: seq<FontFile>): (r: Option<string>)
    ensures r.Some? <==> MatchIndex(name, files) < |files|
    ensures r.Some? ==> r.value == files[MatchIndex(name, files)].path
  {
    if files == [] then None
    else if Matches(name, files[0].stem) then Some(files[0].path)
    else FindFontPath(name, files[1..])
  }

  /** A font is found exactly when some font passes a test. */
  lemma FoundIffSomeMatch(name: string, files: seq<FontFile>)
    ensures FindFontPath(name, files).Some? <==> exists i :: 0 <= i < |files| && Matches(name, files[i].stem)
  {
    if exists i :: 0 <= i < |files| && Matches(name, files[i].stem) {
      var i :| 0 <= i < |files| && Matches(name, files[i].stem);
      assert MatchIndex(name, files) <= i;
    }
  }

  /** An earlier partial match wins over a later exact one: asking for
      "Arial" finds the bold face `arialbd` when it is listed first. */
  lemma PartialMatchWins()
    ensures FindFontPath("Arial", [FontFile("arialbd", "arialbd.ttf"), FontFile("arial", "arial.ttf")])
            == Some("arialbd.ttf")
  {
    BoldFaceMatches();
  }

  lemma BoldFaceMatches()
    ensures Matches("Arial", "arialbd")
  {
    NormalizeArial();
    NormalizeArialBold();
    PrefixContained("arialbd", "arial");
  }

  lemma NormalizeArial()
    ensures Normalize("Arial") == "arial"
  {
    LowerOf("Arial", "arial");
    NormalizePlain("Arial", "arial");
  }

  lemma NormalizeArialBold()
    ensures Normalize("arialbd") == "arialbd"
  {
    LowerOf("arialbd", "arialbd");
    NormalizePlain("arialbd", "arialbd");
  }

  lemma LowerOf(name: string, lower: string)
    requires |name| == |lower|
    requires forall i :: 0 <= i < |name| ==> Text.LowerChar(name[i]) == lower[i]
    ensures Text.Lower(name) == lower
  {
  }

  lemma PrefixContained(haystack: string, needle: string)
    requires |needle| <= |haystack| && haystack[..|needle|] == needle
    ensures Text.Contains(haystack, needle)
  {
  }

  /** A name without spaces or hyphens normalises to its lower case. */
  lemma NormalizePlain(name: string, lower: string)
    requires Text.Lower(name) == lower && ' ' !in lower && '-' !in lower
    ensures Normalize(name) == lower
  {
    Text.RemoveAbsent(lower, ' ');
    Text.RemoveAbsent(lower, '-');
  }

  /** The fonts tried, in order, when none was asked for or it was not found. */
  const CommonFonts: seq<string> :=
    ["Arial", "Helvetica", "Liberation Sans", "DejaVu Sans", "Ubuntu", "Roboto", "Times New Roman", "Georgia"]

  /** A path counts as found when it is a non-empty string. */
  predicate Found(p: Option<string>)
  {
    p.Some? && p.value != []
  }

  /** The position of the first of `names` whose lookup finds a font, or the
      length of `names` when none does. */
  function FoundIndex(names: seq<string>, lookup: string -> Option<string>): (k: nat)
    ensures k <= |names|
    ensures k < |names| ==> Found(lookup(names[k]))
    ensures forall j :: 0 <= j < k ==> !Found(lookup(names[j]))
  {
    if names == [] then 0
    else if Found(lookup(names[0])) then 0
    else 1 + FoundIndex(names[1..], lookup)
  }

  /** The loop over the common fonts that stops at the first name whose
      lookup finds a path. */
  function FirstFound(names: seq<string>, lookup: string -> Option<string>): (r: Option<string>)
    ensures FoundIndex(names, lookup) < |names| ==> r == lookup(names[FoundIndex(names, lookup)])
    ensures FoundIndex(names, lookup) == |names| ==> r.None?
  {
    if names == [] then None
    else if Found(lookup(names[0])) then lookup(names[0])
    else FirstFound(names[1..], lookup)
  }

  /** The requested font when it is found, otherwise the first common font
      that is; `None` means the built-in default font. */
  function ResolveFont(requested: Option<string>, files: seq<FontFile>): (r: Option<string>)
    ensures requested.Some? && requested.value != [] && Found(FindFontPath(requested.value, files)) ==>
              r == FindFontPath(requested.value, files)
    ensures !(requested.Some? && requested.value != [] && Found(FindFontPath(requested.value, files))) ==>
              r == FirstFound(CommonFonts, name => FindFontPath(name, files))
    ensures r.None? <==>
              !(requested.Some? && requested.value != [] && Found(FindFontPath(requested.value, files))) &&
              FoundIndex(CommonFonts, name => FindFontPath(name, files)) == |CommonFonts|
  {
    var asked := if requested.Some? && requested.value != [] then FindFontPath(requested.value, files) else None;
    if Found(asked) then asked else FirstFound(CommonFonts, name => FindFontPath(name, files))
  }

  // ---------------------------------------------------------------------
  // Horizontal placement

  /** The x coordinate of a line of `textWidth` pixels; centring rounds
      toward minus infinity like Python's `//`. */
  function XPosition(align: Align, width: int, marginX: int, textWidth: int): (x: int)
    ensures align == Left ==> x == marginX
    ensures align == Right ==> width - (x + textWidth) == marginX
    ensures align == Center ==> 0 <= (width - (x + textWidth)) - x <= 1
  {
    match align
      case Left => marginX
      case Right => width - marginX - textWidth
      case Center => (width - textWidth) / 2
  }

  /** A centred line sits at the same place whichever way it is mirrored: its
      gaps differ by the parity of the spare width. */
  lemma CenterGapsByParity(width: int, textWidth: int)
    ensures var x := XPosition(Center, width, 0, textWidth);
            (width - (x + textWidth)) - x == (width - textWidth) % 2
  {
  }

  // ---------------------------------------------------------------------
  // Fallback colours

  datatype Rgb8 = Rgb8(r: int, g: int, b: int)

  const White: Rgb8 := Rgb8(255, 255, 255)

  /** The eight colour names the generator knows. */
  const ColorTable: map<string, Rgb8> := map[
    "white" := Rgb8(255, 255, 255), "black" := Rgb8(0, 0, 0),
    "red" := Rgb8(255, 0, 0), "green" := Rgb8(0, 255, 0),
    "blue" := Rgb8(0, 0, 255), "yellow" := Rgb8(255, 255, 0),
    "cyan" := Rgb8(0, 255, 255), "magenta" := Rgb8(255, 0, 255)]

  /** A colour name, ignoring case; an unknown name is white. */
  function ColorByName(name: string): (c: Rgb8)
    ensures Text.Lower(name) in ColorTable ==> c == ColorTable[Text.Lower(name)]
    ensures Text.Lower(name) !in ColorTable ==> c == White
    ensures c.r in {0, 255} && c.g in {0, 255} && c.b in {0, 255}
  {
    var key := Text.Lower(name);
    if key in ColorTable then ColorTable[key] else White
  }

  /** Upper-case letters in a colour name make no difference. */
  lemma ColorIgnoresCase(name: string)
    ensures ColorByName(name) == ColorByName(Text.Lower(name))
  {
    Text.LowerIdempotent(name);
  }

  /** No two names share a colour. */
  lemma ColorTableInjective(a: string, b: string)
    requires a in ColorTable && b in ColorTable && a != b
    ensures ColorTable[a] != ColorTable[b]
  {
  }
}

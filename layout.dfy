/**
 * The HTML of one example: the line count of the original text (line 49), the height
 * rewrite of the right-hand wrapper (lines 50-52), the two-column table
 * (line 54), and the rendering of one example from its two texts (45-54).
 */
module Layout {
  import opened Results
  import opened Text

  /** The opening tag the highlighter's output is expected to begin with. */
  const WrapperPrefix := "<div class=\"highlight\">"
  /** The part of the opening tag that the height rewrite keeps. */
  const WrapperTag := "<div class=\"highlight\""
  /** The rewritten opening tag around the decimal height. */
  const HeightOpen := "<div class=\"highlight\" style=\"height: "
  const HeightClose := "ex\">"

  const TableOpen := "<table class=\"example-display\"><tr valign=\"top\"><td class=\"left\" width=\"50%\">"
  const CellSeparator := "</td><td class=\"right\" width=\"50%\">"
  const TableClose := "</td></tr></table>"

  // ---------------------------------------------------------------------------
  // Line count
  // ---------------------------------------------------------------------------

  /** n_lines: len(original.split('\n')), one more than the number of line breaks. */
  function LineCount(original: string): (n: nat)
    ensures n == Count(original, '\n') + 1
  {
    SplitLength(original, '\n');
    |Split(original, '\n')|
  }

  /** The empty text counts as one line. */
  lemma LineCountOfEmpty()
    ensures LineCount("") == 1
  {
  }

  /** A text without a line break is one line. */
  lemma LineCountOfLine(s: string)
    requires '\n' !in s
    ensures LineCount(s) == 1
  {
  }

  /** A trailing line break adds one (empty) line. */
  lemma LineCountAppendNewline(s: string)
    ensures LineCount(s + "\n") == LineCount(s) + 1
  {
    CountConcat(s, "\n", '\n');
  }

  /** Concatenating two texts with a line break between them adds their counts. */
  lemma LineCountOfLines(s: string, t: string)
    ensures LineCount(s + "\n" + t) == LineCount(s) + LineCount(t)
  {
    CountConcat(s, "\n", '\n');
    CountConcat(s + "\n", t, '\n');
  }

  // ---------------------------------------------------------------------------
  // Height rewrite of the right-hand fragment
  // ---------------------------------------------------------------------------

  /** The opening tag that sets the fragment's height to n ex. */
  function StyledWrapper(n: nat): (r: string)
    ensures |HeightOpen| + |HeightClose| < |r| && StartsWith(r, HeightOpen) && EndsWith(r, HeightClose)
    ensures StartsWith(r, WrapperTag) && r[|WrapperTag|] == ' '
    ensures var height := r[|HeightOpen|..|r| - |HeightClose|];
      CanonicalDecimal(height) && DecimalValue(height) == n
  {
    var r := HeightOpen + Decimal(n) + HeightClose;
    DecimalRoundTrip(n);
    assert r[..|WrapperTag|] == WrapperTag;
    assert r[..|HeightOpen|] == HeightOpen;
    assert r[|r| - |HeightClose|..] == HeightClose;
    assert r[|HeightOpen|..|r| - |HeightClose|] == Decimal(n);
    r
  }

  /**
   * Lines 50-52: None when the fragment does not begin with WrapperPrefix
   * (the assertion fails); otherwise the fragment with that prefix replaced
   * by StyledWrapper(n) and the rest kept.
   */
  function Restyle(rightHtml: string, n: nat): (r: Option<string>)
    ensures r.Some? <==> StartsWith(rightHtml, WrapperPrefix)
    ensures r.Some? ==> StartsWith(r.value, WrapperTag)
    ensures r.Some? ==> EndsWith(r.value, rightHtml[|WrapperPrefix|..])
    ensures r.Some? ==> !StartsWith(r.value, WrapperPrefix)
  {
    if StartsWith(rightHtml, WrapperPrefix) then
      var tail := rightHtml[|WrapperPrefix|..];
      var s := StyledWrapper(n) + tail;
      assert s[..|WrapperTag|] == StyledWrapper(n)[..|WrapperTag|];
      EndsWithConcat(StyledWrapper(n), tail);
      Some(s)
    else None
  }

  /**
   * Reads back a rewritten wrapper: the height and the fragment after the
   * opening tag, or None when s does not begin with such a tag written as
   * StyledWrapper writes it (digits without leading zeros).
   */
  function ParseStyledWrapper(s: string): Option<(nat, string)> {
    if !StartsWith(s, HeightOpen) then None
    else
      var rest := s[|HeightOpen|..];
      var k := LeadingDigits(rest);
      var after := rest[k..];
      if !CanonicalDecimal(rest[..k]) || !StartsWith(after, HeightClose) then None
      else Some((DecimalValue(rest[..k]), after[|HeightClose|..]))
  }

  /** A rewritten opening tag followed by tail, written out piece by piece. */
  lemma StyledWrapperThen(n: nat, tail: string)
    ensures StyledWrapper(n) + tail == HeightOpen + (Decimal(n) + (HeightClose + tail))
  {
  }

  /** The parser reads back the height and the rest after a rewritten opening tag. */
  lemma ParseStyledWrapperOf(n: nat, tail: string)
    ensures ParseStyledWrapper(StyledWrapper(n) + tail) == Some((n, tail))
  {
    var d := Decimal(n);
    var s := StyledWrapper(n) + tail;
    var rest := d + (HeightClose + tail);
    assert StartsWith(s, HeightOpen) && s[|HeightOpen|..] == rest by {
      StyledWrapperThen(n, tail);
      StartsWithConcat(HeightOpen, rest);
    }
    assert LeadingDigits(rest) == |d| by {
      LeadingDigitsOfNumeral(d, HeightClose + tail);
    }
    assert rest[..|d|] == d && rest[|d|..] == HeightClose + tail;
    assert CanonicalDecimal(d) && DecimalValue(d) == n by {
      DecimalRoundTrip(n);
    }
    StartsWithConcat(HeightClose, tail);
  }

  /** A rewritten fragment carries height n and the original fragment's remainder. */
  lemma RestyleRoundTrip(rightHtml: string, n: nat)
    requires StartsWith(rightHtml, WrapperPrefix)
    ensures ParseStyledWrapper(Restyle(rightHtml, n).value) == Some((n, rightHtml[|WrapperPrefix|..]))
  {
    ParseStyledWrapperOf(n, rightHtml[|WrapperPrefix|..]);
  }

  /** Whatever the parser accepts is exactly a rewritten opening tag followed by the rest. */
  lemma ParseStyledWrapperExact(s: string)
    requires ParseStyledWrapper(s).Some?
    ensures s == StyledWrapper(ParseStyledWrapper(s).value.0) + ParseStyledWrapper(s).value.1
  {
    var rest := s[|HeightOpen|..];
    var k := LeadingDigits(rest);
    var digits, after := rest[..k], rest[k..];
    var t := after[|HeightClose|..];
    var n := DecimalValue(digits);
    assert ParseStyledWrapper(s) == Some((n, t));
    assert Decimal(n) == digits by {
      CanonicalDecimalRoundTrip(digits);
    }
    assert s == HeightOpen + (digits + (HeightClose + t)) by {
      assert after == HeightClose + t;
      assert rest == digits + after;
      assert s == HeightOpen + rest;
    }
    StyledWrapperThen(n, t);
  }

  // ---------------------------------------------------------------------------
  // Two-column table
  // ---------------------------------------------------------------------------

  /** Line 54: the left fragment, then the right one, in a two-cell table row. */
  function Compose(leftHtml: string, rightHtml: string): (html: string)
    ensures StartsWith(html, TableOpen)
    ensures EndsWith(html, TableClose)
    ensures |html| == |TableOpen| + |leftHtml| + |CellSeparator| + |rightHtml| + |TableClose|
  {
    var html := TableOpen + leftHtml + CellSeparator + rightHtml + TableClose;
    StartsWithConcat(TableOpen, leftHtml + CellSeparator + rightHtml + TableClose);
    assert html == TableOpen + (leftHtml + CellSeparator + rightHtml + TableClose);
    EndsWithConcat(TableOpen + leftHtml + CellSeparator + rightHtml, TableClose);
    html
  }

  /**
   * Takes a table apart again, given the length of the left cell's content:
   * the contents of the left and the right cell, or None when html is not
   * shaped that way.
   */
  function SplitCells(html: string, leftLength: nat): Option<(string, string)> {
    var a := |TableOpen|;
    var b := a + leftLength;
    var c := b + |CellSeparator|;
    var e := |html| - |TableClose|;
    if StartsWith(html, TableOpen) && EndsWith(html, TableClose) && c <= e && html[b..c] == CellSeparator
    then Some((html[a..b], html[c..e]))
    else None
  }

  /** The composed table holds the left fragment verbatim, then the separator, then the right fragment. */
  lemma ComposeSplitRoundTrip(leftHtml: string, rightHtml: string)
    ensures SplitCells(Compose(leftHtml, rightHtml), |leftHtml|) == Some((leftHtml, rightHtml))
  {
    var html := Compose(leftHtml, rightHtml);
    var a := |TableOpen|;
    var b := a + |leftHtml|;
    var c := b + |CellSeparator|;
    var e := |html| - |TableClose|;
    assert html == TableOpen + leftHtml + CellSeparator + rightHtml + TableClose;
    assert html[a..b] == leftHtml;
    assert html[b..c] == CellSeparator;
    assert html[c..e] == rightHtml;
  }

  /** Every table SplitCells accepts is the composition of the cells it returns. */
  lemma SplitComposeRoundTrip(html: string, leftLength: nat)
    requires SplitCells(html, leftLength).Some?
    ensures Compose(SplitCells(html, leftLength).value.0, SplitCells(html, leftLength).value.1) == html
  {
    var a := |TableOpen|;
    var b := a + leftLength;
    var c := b + |CellSeparator|;
    var e := |html| - |TableClose|;
    assert html == html[..a] + html[a..b] + html[b..c] + html[c..e] + html[e..];
  }

  // ---------------------------------------------------------------------------
  // One example
  // ---------------------------------------------------------------------------

  /**
   * Lines 45-54: highlight both texts, give the right fragment the height of
   * the original text, and compose the table; None when the highlighted
   * translation lacks the expected prefix.
   */
  function Render(original: string, translation: string, highlight: string -> string): (r: Option<string>)
    ensures r.Some? <==> StartsWith(highlight(translation), WrapperPrefix)
    ensures r.Some? ==> StartsWith(r.value, TableOpen) && EndsWith(r.value, TableClose)
  {
    match Restyle(highlight(translation), LineCount(original))
    case None => None
    case Some(rightHtml) => Some(Compose(highlight(original), rightHtml))
  }

  /**
   * A rendered table splits back into its cells: the left cell is the
   * highlighted original, the right cell the highlighted translation after its prefix, and the height
   * is the line count of the original text, whatever the translation is.
   */
  lemma RenderShape(original: string, translation: string, highlight: string -> string)
    ensures Render(original, translation, highlight).Some? ==>
      var cells := SplitCells(Render(original, translation, highlight).value, |highlight(original)|);
      && cells.Some?
      && cells.value.0 == highlight(original)
      && ParseStyledWrapper(cells.value.1) == Some((LineCount(original), highlight(translation)[|WrapperPrefix|..]))
  {
    var right := highlight(translation);
    if StartsWith(right, WrapperPrefix) {
      var styled := Restyle(right, LineCount(original)).value;
      ComposeSplitRoundTrip(highlight(original), styled);
      RestyleRoundTrip(right, LineCount(original));
    }
  }
}

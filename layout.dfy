/**
 Laying a quote out on the 400 x 300 canvas: normalising its text,
 choosing the font size, wrapping, centring the block of lines in the top
 280 pixels and placing the attribution line at the bottom left.

 Font measurements come from the font library and are abstract here: the
 quote font's `getbbox(s)[2]` and `draw.textlength(s)` at a given size,
 and the bottom of the author font's `textbbox((0, 0), s)`.
 */
module Layout {
  import opened PyStr
  import opened Corpus
  import opened Wrap

  const LargeQuoteFontSize := 36
  const MediumQuoteFontSize := 28
  const SmallQuoteFontSize := 20
  const LineSpacing := 6
  const MaxDisplayWidth := 400
  const MaxDisplayHeight := 280
  const CanvasHeight := 300
  const AuthorMargin := 10

  /** Quote lengths below this get the large font. */
  const ShortQuoteLength := 100
  /** Quote lengths below this (and not short) get the medium font. */
  const MediumQuoteLength := 200

  /** The font measurements the layout uses. */
  datatype Metrics = Metrics(
    bboxRight: (int, string) -> int,
    textLength: (int, string) -> int,
    authorBottom: string -> int)

  /** A string drawn with its top-left corner at (x, y). */
  datatype Placement = Placement(text: string, x: int, y: int)

  /** Everything drawn for one quote. */
  datatype Frame = Frame(fontSize: int, body: seq<Placement>, author: Placement)

  /** The width `wrap_text` measures with: the quote font's `getbbox(s)[2]`. */
  function QuoteWidth(m: Metrics, size: int): string -> int {
    s => m.bboxRight(size, s)
  }

  // ---------------------------------------------------------------------
  // Text normalisation

  /** Both spellings of the HTML line break become newlines. */
  function BreaksToNewlines(s: string): string {
    Replace(Replace(s, "<br>", "\n"), "<br/>", "\n")
  }

  /** No break marker survives normalisation. */
  lemma NoBreakMarkersLeft(s: string)
    ensures !HasInfix(BreaksToNewlines(s), "<br>")
    ensures !HasInfix(BreaksToNewlines(s), "<br/>")
  {
    var once := Replace(s, "<br>", "\n");
    ReplaceLeavesOut(s, "<br>", "<br>");
    ReplaceLeavesOut(once, "<br/>", "<br>");
    ReplaceLeavesOut(once, "<br/>", "<br/>");
  }

  /** Text without break markers is left as it is. */
  lemma BreaksToNewlinesKeeps(s: string)
    requires !HasInfix(s, "<br>") && !HasInfix(s, "<br/>")
    ensures BreaksToNewlines(s) == s
  {
    ReplaceAbsent(s, "<br>", "\n");
    ReplaceAbsent(s, "<br/>", "\n");
  }

  /** The text that is sized and wrapped: first part, stripped time phrase
      and last part, separated by newlines. */
  function FullQuote(q: QuoteRecord): string {
    BreaksToNewlines(q.quoteFirst) + "\n" + Strip(q.quoteTimeCase) + "\n" + BreaksToNewlines(q.quoteLast)
  }

  /** The length used to pick the font counts the two separators, and the
      words are those of the three parts in order: the separators are
      whitespace, so the time phrase does not get a line of its own. */
  lemma FullQuoteShape(q: QuoteRecord)
    ensures |FullQuote(q)| ==
      |BreaksToNewlines(q.quoteFirst)| + |Strip(q.quoteTimeCase)| + |BreaksToNewlines(q.quoteLast)| + 2
    ensures Split(FullQuote(q)) ==
      Split(BreaksToNewlines(q.quoteFirst)) + Split(Strip(q.quoteTimeCase)) + Split(BreaksToNewlines(q.quoteLast))
  {
    SplitThreeLines(BreaksToNewlines(q.quoteFirst), Strip(q.quoteTimeCase), BreaksToNewlines(q.quoteLast));
  }

  lemma SplitThreeLines(first: string, time: string, last: string)
    ensures Split(first + "\n" + time + "\n" + last) == Split(first) + Split(time) + Split(last)
  {
    assert first + "\n" + time + "\n" + last == first + ['\n'] + (time + ['\n'] + last);
    SplitAtSpace(first, '\n', time + ['\n'] + last);
    SplitAtSpace(time, '\n', last);
  }

  // ---------------------------------------------------------------------
  // Font size

  /** The quote font size for a quote of the given length. */
  function QuoteFontSize(length: int): (size: int)
    ensures size == LargeQuoteFontSize <==> length < ShortQuoteLength
    ensures size == MediumQuoteFontSize <==> ShortQuoteLength <= length < MediumQuoteLength
    ensures size == SmallQuoteFontSize <==> MediumQuoteLength <= length
  {
    if length < ShortQuoteLength then LargeQuoteFontSize
    else if length < MediumQuoteLength then MediumQuoteFontSize
    else SmallQuoteFontSize
  }

  /** Longer quotes never get a larger font. */
  lemma FontSizeNonIncreasing(shorter: int, longer: int)
    requires shorter <= longer
    ensures QuoteFontSize(longer) <= QuoteFontSize(shorter)
  {
  }

  // ---------------------------------------------------------------------
  // Height and position of the block of lines

  /** The height of `lineCount` lines of the given font size with the line
      spacing between them. */
  function BlockHeight(lineCount: int, size: int): int {
    lineCount * (size + LineSpacing) - LineSpacing
  }

  /** `calculate_text_height`: one line per newline-separated piece. */
  function TextHeight(text: string, size: int): (h: int)
    ensures h == (CountChar(text, '\n') + 1) * (size + LineSpacing) - LineSpacing
    ensures text == "" ==> h == size
  {
    SplitOnCount(text, '\n');
    BlockHeight(|SplitOn(text, '\n')|, size)
  }

  /** The top of a block of height `h` centred in the quote area. */
  function BlockTop(h: int): int {
    (MaxDisplayHeight - h) / 2
  }

  /** A block no taller than the quote area lies inside it, with margins
      above and below that differ by at most one pixel; the last line's
      bottom is the block's bottom. */
  lemma BlockInsideArea(lineCount: int, size: int)
    requires lineCount >= 1 && size >= 0
    requires BlockHeight(lineCount, size) <= MaxDisplayHeight
    ensures var h := BlockHeight(lineCount, size);
      var top := BlockTop(h);
      && 0 <= top
      && top + h <= MaxDisplayHeight
      && 0 <= (MaxDisplayHeight - (top + h)) - top <= 1
      && top + (lineCount - 1) * (size + LineSpacing) + size == top + h
  {
    var h := BlockHeight(lineCount, size);
    assert h >= size;
  }

  /** The left edge of a line of the given width centred in the quote area,
      never left of the canvas. */
  function CentredX(textWidth: int): (x: int)
    ensures x >= 0
  {
    var centred := (MaxDisplayWidth - textWidth) / 2;
    if centred > 0 then centred else 0
  }

  /** A line no wider than the area is centred inside it; a wider one starts
      at the left edge. */
  lemma CentredXPlacement(textWidth: int)
    ensures 0 <= textWidth <= MaxDisplayWidth ==>
      && CentredX(textWidth) + textWidth <= MaxDisplayWidth
      && 0 <= (MaxDisplayWidth - (CentredX(textWidth) + textWidth)) - CentredX(textWidth) <= 1
    ensures textWidth >= MaxDisplayWidth - 1 ==> CentredX(textWidth) == 0
  {
  }

  // ---------------------------------------------------------------------
  // Attribution line

  /** `"{title} - {author}"`. */
  function AuthorText(q: QuoteRecord): (s: string)
    ensures q.title <= s
    ensures s[|q.title|..] == " - " + q.author
  {
    q.title + " - " + q.author
  }

  /** The attribution line at the left margin, its bottom ten pixels above
      the canvas bottom, however wide it is. */
  function AuthorPlacement(q: QuoteRecord, m: Metrics): (p: Placement)
    ensures p.text == AuthorText(q) && p.x == AuthorMargin
    ensures p.y + m.authorBottom(p.text) == CanvasHeight - AuthorMargin
  {
    Placement(AuthorText(q), AuthorMargin, CanvasHeight - m.authorBottom(AuthorText(q)) - AuthorMargin)
  }

  // ---------------------------------------------------------------------
  // The whole frame

  function Texts(body: seq<Placement>): (lines: seq<string>)
    ensures |lines| == |body|
  {
    seq(|body|, k requires 0 <= k < |body| => body[k].text)
  }

  /** `f` is the frame drawn for `q`: the font size chosen from the
      normalised text's length, the body lines the greedy wrap of its words,
      each line centred horizontally, the lines stacked from the top of the
      vertically centred block, and the attribution line at the bottom. */
  ghost predicate IsLayout(f: Frame, q: QuoteRecord, m: Metrics) {
    var full := FullQuote(q);
    var size := QuoteFontSize(|full|);
    var lines := Texts(f.body);
    && f.fontSize == size
    && lines == LinesOf(WordsOfLines(lines))
    && IsGreedyWrap(Split(full), WordsOfLines(lines), QuoteWidth(m, size), MaxDisplayWidth)
    && (forall k :: 0 <= k < |f.body| ==>
          f.body[k].x == CentredX(m.textLength(size, f.body[k].text)))
    && (forall k :: 0 <= k < |f.body| ==>
          f.body[k].y == BlockTop(BlockHeight(|f.body|, size)) + k * (size + LineSpacing))
    && f.author == AuthorPlacement(q, m)
  }

  /** The drawing part of `update_display` for one quote. */
  method Render(q: QuoteRecord, m: Metrics) returns (f: Frame)
    ensures IsLayout(f, q, m)
  {
    var fullQuote := FullQuote(q);
    var size := QuoteFontSize(|fullQuote|);
    var wrapped := WrapText(fullQuote, QuoteWidth(m, size), MaxDisplayWidth);
    var totalHeight := TextHeight(wrapped, size);
    var yPosition := BlockTop(totalHeight);
    var lines := SplitOn(wrapped, '\n');
    var body := PlaceLines(lines, size, m, yPosition);
    f := Frame(size, body, AuthorPlacement(q, m));
  }

  /** The line loop of `update_display`: each line centred on its own
      width, the first at `top`, each next one a line-step lower. */
  method PlaceLines(lines: seq<string>, size: int, m: Metrics, top: int) returns (body: seq<Placement>)
    ensures Texts(body) == lines
    ensures forall k :: 0 <= k < |body| ==> body[k].x == CentredX(m.textLength(size, body[k].text))
    ensures forall k :: 0 <= k < |body| ==> body[k].y == top + k * (size + LineSpacing)
  {
    var yPosition := top;
    body := [];
    for i := 0 to |lines|
      invariant |body| == i
      invariant yPosition == top + i * (size + LineSpacing)
      invariant forall k :: 0 <= k < i ==> body[k].text == lines[k]
      invariant forall k :: 0 <= k < i ==> body[k].x == CentredX(m.textLength(size, lines[k]))
      invariant forall k :: 0 <= k < i ==> body[k].y == top + k * (size + LineSpacing)
    {
      var textWidth := m.textLength(size, lines[i]);
      var xPosition := CentredX(textWidth);
      body := body + [Placement(lines[i], xPosition, yPosition)];
      yPosition := yPosition + size + LineSpacing;
    }
    assert Texts(body) == lines;
  }

  /** Laying out the same quote with the same fonts twice gives the same frame. */
  lemma LayoutDeterministic(f1: Frame, f2: Frame, q: QuoteRecord, m: Metrics)
    requires IsLayout(f1, q, m) && IsLayout(f2, q, m)
    ensures f1 == f2
  {
    var size := QuoteFontSize(|FullQuote(q)|);
    var l1, l2 := Texts(f1.body), Texts(f2.body);
    WrapUnique(Split(FullQuote(q)), WordsOfLines(l1), WordsOfLines(l2), QuoteWidth(m, size), MaxDisplayWidth);
    assert l1 == l2;
    assert |f1.body| == |f2.body|;
    forall k | 0 <= k < |f1.body|
      ensures f1.body[k] == f2.body[k]
    {
      assert f1.body[k].text == l1[k] == l2[k] == f2.body[k].text;
    }
    assert f1.body == f2.body;
  }

  /** Where the lines of a laid-out frame are: at least one line, each
      starting inside the canvas horizontally, line k at k line-steps below
      the block top, and, when the block fits the quote area, every line
      inside it. */
  lemma LayoutPlacement(f: Frame, q: QuoteRecord, m: Metrics)
    requires IsLayout(f, q, m)
    ensures |f.body| >= 1
    ensures forall k :: 0 <= k < |f.body| ==> f.body[k].x >= 0
    ensures var h := BlockHeight(|f.body|, f.fontSize);
      h <= MaxDisplayHeight ==>
        && 0 <= f.body[0].y
        && f.body[|f.body| - 1].y + f.fontSize == BlockTop(h) + h
        && BlockTop(h) + h <= MaxDisplayHeight
  {
    var n := |f.body|;
    assert |WordsOfLines(Texts(f.body))| >= 1;
    if BlockHeight(n, f.fontSize) <= MaxDisplayHeight {
      BlockInsideArea(n, f.fontSize);
    }
  }
}

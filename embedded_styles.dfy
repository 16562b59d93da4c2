/** Sizing of a chat bubble from the length of its text (embedded_styles.py).
    Widths are pixels as reals; heights are whole pixels. */
module EmbeddedStyles {

  const MessageWidthPercentage: real := 0.8
  const FontSize: int := 16
  const ContainerWidth: int := 700
  const LineHeightMultiplier: real := 1.5
  const CharWidth: real := 0.6 * FontSize as real
  const MaxLineWidth: real := ContainerWidth as real * MessageWidthPercentage
  const MaxCharsPerLine: int := 69
  const HeightReducerMultiplier: int := 10
  /** The height of one line, FONT_SIZE * LINE_HEIGHT_MULTIPLIER, which is a whole number of pixels. */
  const LineHeight: int := 24
  /** The least height a bubble gets. */
  const MinHeight: int := 32

  lemma LineHeightIsWhole()
    ensures LineHeight as real == FontSize as real * LineHeightMultiplier
    ensures CharWidth == 9.6 && MaxLineWidth == 560.0
  {
  }

  function MinReal(a: real, b: real): real
  {
    if a <= b then a else b
  }

  function Max(a: int, b: int): int
  {
    if a >= b then a else b
  }

  /** estimate_content_width: one character width per character, capped at
      the widest line a bubble may have. */
  function EstimateContentWidth(text: string): (width: real)
    ensures 0.0 <= width <= MaxLineWidth
    ensures width <= |text| as real * CharWidth
    ensures width == MaxLineWidth || width == |text| as real * CharWidth
  {
    MinReal(|text| as real * CharWidth, MaxLineWidth)
  }

  /** The width is exactly the text's own width for up to 58 characters and
      is capped from 59 on. */
  lemma WidthUncappedIffShort(text: string)
    ensures EstimateContentWidth(text) == |text| as real * CharWidth <==> |text| <= 58
  {
  }

  /** A longer text never gets a narrower bubble. */
  lemma WidthMonotone(a: string, b: string)
    requires |a| <= |b|
    ensures EstimateContentWidth(a) <= EstimateContentWidth(b)
  {
  }

  /** math.ceil(len / MAX_CHARS_PER_LINE): the fewest lines of 69 characters that hold `length` characters. */
  function TotalLines(length: nat): (lines: nat)
    ensures length <= lines * MaxCharsPerLine
    ensures lines == 0 || (lines - 1) * MaxCharsPerLine < length
  {
    (length + MaxCharsPerLine - 1) / MaxCharsPerLine
  }

  /** The height for a given number of wrapped lines: 24 px per line, minus
      10 px per line beyond the third, and never below 32 px. */
  function HeightForLines(lines: nat): (height: int)
    ensures height >= MinHeight
  {
    var contentHeight := lines * LineHeight;
    var reduced := if lines > 3 then contentHeight - HeightReducerMultiplier * (lines - 3) else contentHeight;
    Max(reduced, MinHeight)
  }

  /** estimate_content_height. */
  function EstimateContentHeight(text: string): (height: int)
    ensures height >= MinHeight
  {
    HeightForLines(TotalLines(|text|))
  }

  /** Empty text has no lines; 1 to 69 characters make one line. */
  lemma LineCountOfShortText(length: nat)
    ensures TotalLines(length) == 0 <==> length == 0
    ensures 1 <= length <= MaxCharsPerLine ==> TotalLines(length) == 1
  {
  }

  /** Up to three lines the height is 24 px per line, but at least 32 px;
      beyond three lines it is 14 px per line plus 30 px. */
  lemma HeightByLineCount(text: string)
    ensures TotalLines(|text|) <= 3 ==> EstimateContentHeight(text) == Max(LineHeight * TotalLines(|text|), MinHeight)
    ensures TotalLines(|text|) > 3 ==> EstimateContentHeight(text) == 14 * TotalLines(|text|) + 30
  {
  }

  /** Empty or one-line text gets the minimum height. */
  lemma ShortTextMinimumHeight(text: string)
    requires |text| <= MaxCharsPerLine
    ensures EstimateContentHeight(text) == MinHeight
  {
    LineCountOfShortText(|text|);
  }

  /** More lines never give a lower bubble. */
  lemma HeightForLinesMonotone(m: nat, n: nat)
    requires m <= n
    ensures HeightForLines(m) <= HeightForLines(n)
  {
  }

  /** A longer text never gets a lower bubble. */
  lemma HeightMonotone(a: string, b: string)
    requires |a| <= |b|
    ensures EstimateContentHeight(a) <= EstimateContentHeight(b)
  {
    assert TotalLines(|a|) <= TotalLines(|b|);
    HeightForLinesMonotone(TotalLines(|a|), TotalLines(|b|));
  }
}

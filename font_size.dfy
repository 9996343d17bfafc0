/**
 * The font-size toolbar control: the size shown is read back from the
 * selection's `font-size` style, and every change is clamped to 1..72
 * before it is applied as a `px` style to the selection.
 */
module FontSize {
  import opened Wrappers
  import JsText

  const DefaultFontSize: int := 16
  const MinFontSize: int := 1
  const MaxFontSize: int := 72

  /**
   * `parseInt(s)`: leading whitespace, an optional sign and the longest run
   * of decimal digits after it; none (NaN) when there is no digit.
   */
  function ParseInt(s: string): (r: Option<int>)
    ensures r.None? <==> (var t := s[JsText.Span(s, JsText.IsSpace)..];
                         var body := if t != [] && (t[0] == '-' || t[0] == '+') then t[1..] else t;
                         body == [] || !JsText.IsDigit(body[0]))
  {
    var t := s[JsText.Span(s, JsText.IsSpace)..];
    var negative := t != [] && t[0] == '-';
    var body := if t != [] && (t[0] == '-' || t[0] == '+') then t[1..] else t;
    var n := JsText.Span(body, JsText.IsDigit);
    if n == 0 then None
    else
      var v: int := JsText.DigitsValue(body[..n]);
      Some(if negative then -v else v)
  }

  /** `parseInt(value) || 16`: NaN and 0 fall back to the default. */
  function SizeFromStyle(value: string): (n: int)
    ensures n != 0
    ensures n == DefaultFontSize || ParseInt(value) == Some(n)
  {
    match ParseInt(value)
    case None => DefaultFontSize
    case Some(n) => if n == 0 then DefaultFontSize else n
  }

  /** `$updateToolbar`: a range selection sets the shown size from its style value; any other selection keeps it. */
  function UpdateToolbar(isRangeSelection: bool, styleValue: string, fontSize: int): int {
    if isRangeSelection then SizeFromStyle(styleValue) else fontSize
  }

  /** The style value `${n}px` that an integer size is written as. */
  function PxText(n: int): string {
    JsText.IntToDecimal(n) + "px"
  }

  lemma DigitsThenPx(d: string)
    requires d != [] && JsText.AllDigits(d)
    ensures JsText.Span(d + "px", JsText.IsDigit) == |d|
    ensures (d + "px")[..|d|] == d
  {
    JsText.SpanConcat(d, "px", JsText.IsDigit);
  }

  /** The toolbar reads back any positive integer size written as `${n}px`. */
  lemma ReadsBackPx(n: int)
    requires n >= 1
    ensures SizeFromStyle(PxText(n)) == n
  {
    var d := JsText.NatToDecimal(n);
    var s := d + "px";
    assert PxText(n) == s;
    assert JsText.IsDigit(s[0]);
    assert JsText.Span(s, JsText.IsSpace) == 0;
    assert s[0..] == s;
    DigitsThenPx(d);
    JsText.DecimalRoundTrip(n);
    assert ParseInt(s) == Some(n);
  }

  /** A missing number or 0 shows the default size 16; otherwise the parsed integer. */
  lemma SizeFromStyleFallback(value: string)
    ensures ParseInt(value).None? || ParseInt(value) == Some(0) ==> SizeFromStyle(value) == 16
    ensures ParseInt(value).Some? && ParseInt(value).value != 0 ==> SizeFromStyle(value) == ParseInt(value).value
  {
  }

  /** What `updateFontSize` applies: `${size}px` to a non-null selection. */
  datatype Applied = Applied(size: real, patchedSelection: bool)

  /** `Math.min(Math.max(newSize, 1), 72)`. */
  function ClampSize(newSize: real): (size: real)
    ensures MinFontSize as real <= size <= MaxFontSize as real
    ensures MinFontSize as real <= newSize <= MaxFontSize as real ==> size == newSize
    ensures newSize < MinFontSize as real ==> size == MinFontSize as real
    ensures newSize > MaxFontSize as real ==> size == MaxFontSize as real
  {
    var atLeast := if newSize > MinFontSize as real then newSize else MinFontSize as real;
    if atLeast < MaxFontSize as real then atLeast else MaxFontSize as real
  }

  /** `updateFontSize(newSize)`: the clamped size is applied to the selection, if any, and becomes the shown size. */
  function UpdateFontSize(newSize: real, hasSelection: bool): (applied: Applied)
    ensures MinFontSize as real <= applied.size <= MaxFontSize as real
    ensures MinFontSize as real <= newSize <= MaxFontSize as real ==> applied.size == newSize
    ensures applied.patchedSelection == hasSelection
  {
    Applied(ClampSize(newSize), hasSelection)
  }

  /** An integer size is applied as an integer, which the toolbar then reads back unchanged. */
  lemma UpdateThenToolbarAgree(newSize: int, hasSelection: bool)
    ensures var applied := UpdateFontSize(newSize as real, hasSelection);
      var n := applied.size.Floor;
      applied.size == n as real && MinFontSize <= n <= MaxFontSize
      && UpdateToolbar(true, PxText(n), 0) == n
  {
    var n := UpdateFontSize(newSize as real, hasSelection).size.Floor;
    ReadsBackPx(n);
  }

  predicate DecreaseDisabled(fontSize: int) {
    fontSize <= MinFontSize
  }

  predicate IncreaseDisabled(fontSize: int) {
    fontSize >= MaxFontSize
  }

  /** The minus button: one less, clamped; none while disabled. */
  function Decrease(fontSize: int, hasSelection: bool): Option<Applied> {
    if DecreaseDisabled(fontSize) then None else Some(UpdateFontSize((fontSize - 1) as real, hasSelection))
  }

  /** The plus button: one more, clamped; none while disabled. */
  function Increase(fontSize: int, hasSelection: bool): Option<Applied> {
    if IncreaseDisabled(fontSize) then None else Some(UpdateFontSize((fontSize + 1) as real, hasSelection))
  }

  /** The number input: a NaN value is ignored. */
  function InputValue(value: Option<real>, hasSelection: bool): Option<Applied> {
    match value
    case None => None
    case Some(v) => Some(UpdateFontSize(v, hasSelection))
  }

  /**
   * Within 1..72 the buttons step by one and are disabled exactly at the
   * ends; a shown size above 72 (read from a style) is lowered to 72 by the
   * minus button.
   */
  lemma ButtonSteps(fontSize: int, hasSelection: bool)
    ensures Decrease(fontSize, hasSelection).None? <==> fontSize <= 1
    ensures Increase(fontSize, hasSelection).None? <==> fontSize >= 72
    ensures 2 <= fontSize <= 73 ==> Decrease(fontSize, hasSelection) == Some(Applied((fontSize - 1) as real, hasSelection))
    ensures fontSize > 73 ==> Decrease(fontSize, hasSelection) == Some(Applied(72.0, hasSelection))
    ensures 0 <= fontSize <= 71 ==> Increase(fontSize, hasSelection) == Some(Applied((fontSize + 1) as real, hasSelection))
    ensures fontSize < 0 ==> Increase(fontSize, hasSelection) == Some(Applied(1.0, hasSelection))
  {
  }
}

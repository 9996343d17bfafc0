/**
 * The value layer of the colour picker: colours as red, green, blue and
 * alpha; the six-digit hex codec `hexToRgb`/`rgbToHex`; the CSS-style
 * parser `parseColorString`; and the printer `colorToString`.
 *
 * Components are JavaScript numbers. The hex and `rgb()` paths only ever
 * produce integers, so components are modelled as `int`; alpha is a real
 * number or NaN (`parseFloat(".")`). The floating-point colour-space
 * conversions (HSL, HSB) are not modelled: the parser receives its hsl and
 * hsb branches as parameters, and the printer yields the hsl and hsb forms
 * symbolically.
 */
module ColorValues {
  import opened Wrappers
  import JsText

  datatype Format = Hex | Rgb | Hsl | Hsb

  datatype Alpha = Finite(x: real) | NaN

  datatype Color = Color(r: int, g: int, b: int, a: Alpha)

  const Black := Color(0, 0, 0, Finite(1.0))

  /** `color.a < 1`; false for NaN. */
  predicate IsTranslucent(a: Alpha) {
    a.Finite? && a.x < 1.0
  }

  // Hexadecimal digits

  predicate IsHexDigit(c: char) {
    ('0' <= c <= '9') || ('a' <= c <= 'f') || ('A' <= c <= 'F')
  }

  predicate AllHex(s: string) {
    forall k :: 0 <= k < |s| ==> IsHexDigit(s[k])
  }

  function HexDigitValue(c: char): (d: nat)
    requires IsHexDigit(c)
    ensures d < 16
  {
    if '0' <= c <= '9' then c as int - '0' as int
    else if 'a' <= c <= 'f' then c as int - 'a' as int + 10
    else c as int - 'A' as int + 10
  }

  /** The lower-case digit `toString(16)` writes for `d`. */
  function HexDigitChar(d: nat): (c: char)
    requires d < 16
    ensures IsHexDigit(c) && HexDigitValue(c) == d && !('A' <= c <= 'F')
  {
    "0123456789abcdef"[d]
  }

  function HexPairValue(hi: char, lo: char): (n: nat)
    requires IsHexDigit(hi) && IsHexDigit(lo)
    ensures n < 256
  {
    16 * HexDigitValue(hi) + HexDigitValue(lo)
  }

  // hexToRgb

  /**
   * What `/^#?([a-f\d]{2})([a-f\d]{2})([a-f\d]{2})$/i` accepts: six hex
   * digits in either case, optionally after a `#`; the digits are returned.
   */
  function HexBody(s: string): (d: Option<string>)
    ensures d.Some? ==> |d.value| == 6 && AllHex(d.value)
  {
    if |s| == 7 && s[0] == '#' && AllHex(s[1..]) then Some(s[1..])
    else if |s| == 6 && AllHex(s) then Some(s)
    else None
  }

  /** `hexToRgb(hex, alpha)`: each digit pair is a component; anything else is black. */
  function HexToRgb(s: string, alpha: Option<Alpha>): (c: Color)
    ensures 0 <= c.r < 256 && 0 <= c.g < 256 && 0 <= c.b < 256
    ensures c.a == alpha.GetOr(Finite(1.0))
    ensures HexBody(s).None? ==> c.r == 0 && c.g == 0 && c.b == 0
    ensures HexBody(s).Some? ==>
      var d := HexBody(s).value;
      c.r == HexPairValue(d[0], d[1]) && c.g == HexPairValue(d[2], d[3]) && c.b == HexPairValue(d[4], d[5])
  {
    var a := alpha.GetOr(Finite(1.0));
    match HexBody(s)
    case None => Color(0, 0, 0, a)
    case Some(d) => Color(HexPairValue(d[0], d[1]), HexPairValue(d[2], d[3]), HexPairValue(d[4], d[5]), a)
  }

  // rgbToHex

  /** `n.toString(16)` for a non-negative integer. */
  function NatToHex(n: nat): (s: string)
    ensures |s| >= 1
  {
    (if n < 16 then "" else NatToHex(n / 16)) + [HexDigitChar(n % 16)]
  }

  /** The inner `toHex` of `rgbToHex`: `Math.round(n).toString(16)`, padded to two characters. */
  function ToHex(n: int): (s: string)
    ensures |s| >= 2
  {
    var hex := if n < 0 then "-" + NatToHex(-n) else NatToHex(n);
    if |hex| == 1 then "0" + hex else hex
  }

  /** `#` and three hex fields of at least two characters each. */
  function RgbToHex(c: Color): (s: string)
    ensures |s| >= 7 && s[0] == '#'
  {
    "#" + ToHex(c.r) + ToHex(c.g) + ToHex(c.b)
  }

  /** A byte prints as its two lower-case hex digits. */
  lemma ToHexOfByte(n: int)
    requires 0 <= n < 256
    ensures ToHex(n) == [HexDigitChar(n / 16), HexDigitChar(n % 16)]
  {
    var high, low := n / 16, n % 16;
    if high == 0 {
      NatToHexOfDigit(low);
      assert HexDigitChar(0) == '0';
    } else {
      NatToHexOfDigits(n, high, low);
    }
  }

  lemma NatToHexOfDigit(d: nat)
    requires d < 16
    ensures NatToHex(d) == [HexDigitChar(d)]
  {
    assert d % 16 == d;
  }

  lemma NatToHexOfDigits(n: nat, high: nat, low: nat)
    requires 0 < high < 16 && low < 16 && n == 16 * high + low
    ensures NatToHex(n) == [HexDigitChar(high), HexDigitChar(low)]
  {
    assert n / 16 == high && n % 16 == low;
    NatToHexOfDigit(high);
  }

  predicate InByteRange(c: Color) {
    0 <= c.r < 256 && 0 <= c.g < 256 && 0 <= c.b < 256
  }

  /** `rgbToHex` of byte components: `#` and three zero-padded lower-case digit pairs. */
  lemma RgbToHexShape(c: Color)
    requires InByteRange(c)
    ensures var s := RgbToHex(c);
      |s| == 7 && s[0] == '#' && AllHex(s[1..])
      && (forall k :: 1 <= k < 7 ==> !('A' <= s[k] <= 'F'))
      && HexPairValue(s[1], s[2]) == c.r && HexPairValue(s[3], s[4]) == c.g && HexPairValue(s[5], s[6]) == c.b
  {
    RgbToHexChars(c);
    ShapeOfDigits(RgbToHex(c), c.r, c.g, c.b);
  }

  lemma RgbToHexChars(c: Color)
    requires InByteRange(c)
    ensures RgbToHex(c) == ['#', HexDigitChar(c.r / 16), HexDigitChar(c.r % 16), HexDigitChar(c.g / 16),
                            HexDigitChar(c.g % 16), HexDigitChar(c.b / 16), HexDigitChar(c.b % 16)]
  {
    ToHexOfByte(c.r);
    ToHexOfByte(c.g);
    ToHexOfByte(c.b);
    SevenChars(ToHex(c.r), ToHex(c.g), ToHex(c.b));
  }

  lemma SevenChars(p: string, q: string, r: string)
    requires |p| == 2 && |q| == 2 && |r| == 2
    ensures "#" + p + q + r == ['#', p[0], p[1], q[0], q[1], r[0], r[1]]
  {
  }

  lemma ShapeOfDigits(s: string, x: int, y: int, z: int)
    requires 0 <= x < 256 && 0 <= y < 256 && 0 <= z < 256
    requires s == ['#', HexDigitChar(x / 16), HexDigitChar(x % 16), HexDigitChar(y / 16),
                   HexDigitChar(y % 16), HexDigitChar(z / 16), HexDigitChar(z % 16)]
    ensures |s| == 7 && s[0] == '#' && AllHex(s[1..])
      && (forall k :: 1 <= k < 7 ==> !('A' <= s[k] <= 'F'))
      && HexPairValue(s[1], s[2]) == x && HexPairValue(s[3], s[4]) == y && HexPairValue(s[5], s[6]) == z
  {
    assert forall k :: 1 <= k < 7 ==> IsHexDigit(s[k]) && !('A' <= s[k] <= 'F');
    assert forall k :: 0 <= k < 6 ==> s[1..][k] == s[k + 1];
  }

  /** Printing byte components as hex and reading them back with the same alpha gives the colour. */
  lemma HexRoundTrip(c: Color)
    requires InByteRange(c)
    ensures HexToRgb(RgbToHex(c), Some(c.a)) == c
  {
    RgbToHexShape(c);
  }

  // colorToString

  /** The output of `colorToString`; the hsl and hsb forms rest on floating-point maths and stay symbolic. */
  datatype ColorText = Css(text: string) | HslForm(color: Color) | HsbForm(color: Color)

  function Components(c: Color): string {
    JsText.IntToDecimal(c.r) + ", " + JsText.IntToDecimal(c.g) + ", " + JsText.IntToDecimal(c.b)
  }

  /**
   * `colorToString(color, format)`, hex by default. `showNumber` is
   * JavaScript's `Number.prototype.toString`, used for a translucent alpha.
   */
  function ColorToString(c: Color, format: Option<Format>, showNumber: real -> string): ColorText {
    match format.GetOr(Hex)
    case Hex => Css(RgbToHex(c))
    case Rgb =>
      if IsTranslucent(c.a) then Css("rgba(" + (Components(c) + (", " + (showNumber(c.a.x) + ")"))))
      else Css("rgb(" + (Components(c) + ")"))
    case Hsl => HslForm(c)
    case Hsb => HsbForm(c)
  }

  /** The hex form ignores alpha; the rgb form carries alpha exactly when it is below 1. */
  lemma ColorToStringForms(c: Color, showNumber: real -> string)
    ensures ColorToString(c, None, showNumber) == ColorToString(c, Some(Hex), showNumber)
    ensures forall a: Alpha :: ColorToString(c.(a := a), Some(Hex), showNumber) == ColorToString(c, Some(Hex), showNumber)
    ensures var s := ColorToString(c, Some(Rgb), showNumber).text;
      (|s| >= 5 && s[..5] == "rgba(") <==> IsTranslucent(c.a)
  {
    RgbFormPrefix(c, showNumber);
  }

  lemma RgbFormPrefix(c: Color, showNumber: real -> string)
    ensures var s := ColorToString(c, Some(Rgb), showNumber).text;
      (|s| >= 5 && s[..5] == "rgba(") <==> IsTranslucent(c.a)
  {
    var s := ColorToString(c, Some(Rgb), showNumber).text;
    if IsTranslucent(c.a) {
      PrefixOfConcat("rgba(", Components(c) + (", " + (showNumber(c.a.x) + ")")));
    } else {
      assert s == "rgb(" + (Components(c) + ")");
      assert s[3] == '(' != "rgba("[3];
    }
  }

  lemma PrefixOfConcat(p: string, q: string)
    ensures (p + q)[..|p|] == p
  {
  }

  // parseColorString

  function SkipSpaces(s: string): (r: string)
    ensures r == [] || !JsText.IsSpace(r[0])
  {
    s[JsText.Span(s, JsText.IsSpace)..]
  }

  /** A number read from the input and the input that follows it. */
  datatype Read = Read(n: nat, rest: string)

  /** `\s*(\d+)\s*`: the value of the digits and what follows the trailing spaces. */
  function Component(s: string): Option<Read> {
    var t := SkipSpaces(s);
    var n := JsText.Span(t, JsText.IsDigit);
    if n == 0 then None else Some(Read(JsText.DigitsValue(t[..n]), SkipSpaces(t[n..])))
  }

  /** `,\s*(\d+)\s*`. */
  function CommaComponent(s: string): Option<Read> {
    if s != [] && s[0] == ',' then Component(s[1..]) else None
  }

  predicate IsNumberChar(c: char) {
    JsText.IsDigit(c) || c == '.'
  }

  /** `parseFloat` of a string matched by `[\d.]+`: the longest prefix `digits[.digits]`, NaN if it has no digit. */
  function ParseFloat(s: string): Alpha {
    var i := JsText.Span(s, JsText.IsDigit);
    var whole := JsText.DigitsValue(s[..i]) as real;
    if i < |s| && s[i] == '.' then
      var f := JsText.Span(s[i + 1..], JsText.IsDigit);
      if i == 0 && f == 0 then NaN
      else Finite(whole + JsText.DigitsValue(s[i + 1..][..f]) as real / Pow10(f) as real)
    else if i == 0 then NaN
    else Finite(whole)
  }

  function Pow10(n: nat): (p: nat)
    ensures p >= 1
  {
    if n == 0 then 1 else 10 * Pow10(n - 1)
  }

  /** What follows the third component: `)` (alpha 1) or `,\s*([\d.]+)\s*)` (alpha from `parseFloat`). */
  function AlphaTail(s: string): Option<Alpha> {
    if s == ")" then Some(Finite(1.0))
    else if s != [] && s[0] == ',' then
      var t := SkipSpaces(s[1..]);
      var n := JsText.Span(t, IsNumberChar);
      if n > 0 && SkipSpaces(t[n..]) == ")" then Some(ParseFloat(t[..n])) else None
    else None
  }

  /** What follows `rgb(` or `rgba(` in `^rgba?\(\s*(\d+)\s*,\s*(\d+)\s*,\s*(\d+)\s*(?:,\s*([\d.]+))?\s*\)$`. */
  function RgbArguments(s: string): Option<Color> {
    var r := Component(s);
    if r.None? then None
    else
      var g := CommaComponent(r.value.rest);
      if g.None? then None
      else
        var b := CommaComponent(g.value.rest);
        if b.None? then None
        else
          var a := AlphaTail(b.value.rest);
          if a.None? then None else Some(Color(r.value.n, g.value.n, b.value.n, a.value))
  }

  /** The `rgb()`/`rgba()` branch. */
  function RgbForm(t: string): Option<Color> {
    if |t| >= 4 && t[..3] == "rgb" then
      var rest := if t[3] == 'a' then t[4..] else t[3..];
      if rest != [] && rest[0] == '(' then RgbArguments(rest[1..]) else None
    else None
  }

  predicate StartsWith(s: string, prefix: string) {
    |s| >= |prefix| && s[..|prefix|] == prefix
  }

  /** The first check: `#` with three or six hex digits. */
  predicate IsHexForm(t: string) {
    |t| >= 1 && t[0] == '#' && (|t| == 4 || |t| == 7) && AllHex(t[1..])
  }

  /**
   * `parseColorString(value)`. The hsl and hsb branches, whose patterns
   * require the prefixes `hsl` and `hsb`, are supplied as `hsl` and `hsb`.
   */
  function ParseColorString(value: string, hsl: string -> Option<Color>, hsb: string -> Option<Color>): Option<Color> {
    var t := JsText.Trim(value, JsText.IsSpace);
    if IsHexForm(t) then Some(HexToRgb(t, None))
    else if RgbForm(t).Some? then RgbForm(t)
    else if StartsWith(t, "hsl") && hsl(t).Some? then hsl(t)
    else if StartsWith(t, "hsb") then hsb(t)
    else None
  }

  /** Whitespace around the value is ignored. */
  lemma ParseIgnoresSurroundingSpace(value: string, hsl: string -> Option<Color>, hsb: string -> Option<Color>)
    ensures ParseColorString(value, hsl, hsb) == ParseColorString(JsText.Trim(value, JsText.IsSpace), hsl, hsb)
  {
    JsText.TrimOfTrimmed(JsText.Trim(value, JsText.IsSpace), JsText.IsSpace);
  }

  /** Anything that starts with none of `#`, `rgb`, `hsl`, `hsb` after trimming is not a colour. */
  lemma ParseRejectsOtherPrefixes(value: string, hsl: string -> Option<Color>, hsb: string -> Option<Color>)
    requires var t := JsText.Trim(value, JsText.IsSpace);
      !StartsWith(t, "#") && !StartsWith(t, "rgb") && !StartsWith(t, "hsl") && !StartsWith(t, "hsb")
    ensures ParseColorString(value, hsl, hsb) == None
  {
  }

  /** `rgb(` and `rgba(` are interchangeable. */
  lemma RgbAndRgbaAgree(args: string)
    ensures RgbForm("rgb(" + args) == RgbForm("rgba(" + args)
  {
    RgbFormOfPrefix("rgb(", args);
    RgbFormOfPrefix("rgba(", args);
  }

  /** `Component` reads back a printed non-negative number, after optional leading spaces. */
  lemma ComponentOfDecimal(spaces: string, n: nat, rest: string)
    requires forall k :: 0 <= k < |spaces| ==> JsText.IsSpace(spaces[k])
    requires rest != [] && !JsText.IsSpace(rest[0]) && !JsText.IsDigit(rest[0])
    ensures Component(spaces + JsText.NatToDecimal(n) + rest) == Some(Read(n, rest))
  {
    var d := JsText.NatToDecimal(n);
    var t := d + rest;
    assert spaces + d + rest == spaces + t;
    SkipLeadingSpaces(spaces, t);
    DigitsSpan(d, rest);
    SkipLeadingSpaces("", rest);
    assert "" + rest == rest;
    JsText.DecimalRoundTrip(n);
  }

  lemma SkipLeadingSpaces(spaces: string, s: string)
    requires forall k :: 0 <= k < |spaces| ==> JsText.IsSpace(spaces[k])
    requires s != [] && !JsText.IsSpace(s[0])
    ensures SkipSpaces(spaces + s) == s
  {
    JsText.SpanConcat(spaces, s, JsText.IsSpace);
  }

  /** A run of digits followed by a non-digit: the span covers exactly the digits. */
  lemma DigitsSpan(d: string, rest: string)
    requires JsText.AllDigits(d)
    requires rest != [] && !JsText.IsDigit(rest[0])
    ensures JsText.Span(d + rest, JsText.IsDigit) == |d|
    ensures (d + rest)[..|d|] == d && (d + rest)[|d|..] == rest
  {
    JsText.SpanConcat(d, rest, JsText.IsDigit);
  }

  /** `CommaComponent` reads back `, ` and a printed non-negative number. */
  lemma CommaComponentOfDecimal(n: nat, rest: string)
    requires rest != [] && !JsText.IsSpace(rest[0]) && !JsText.IsDigit(rest[0])
    ensures CommaComponent(", " + JsText.NatToDecimal(n) + rest) == Some(Read(n, rest))
  {
    assert (", " + JsText.NatToDecimal(n) + rest)[1..] == " " + JsText.NatToDecimal(n) + rest;
    ComponentOfDecimal(" ", n, rest);
  }

  /** The rgb branch reads the printed components and then the alpha tail. */
  lemma RgbArgumentsOfComponents(c: Color, tail: string)
    requires c.r >= 0 && c.g >= 0 && c.b >= 0
    requires tail != [] && !JsText.IsSpace(tail[0]) && !JsText.IsDigit(tail[0])
    ensures RgbArguments(Components(c) + tail)
            == if AlphaTail(tail).Some? then Some(c.(a := AlphaTail(tail).value)) else None
  {
    var dr, dg, db := JsText.NatToDecimal(c.r), JsText.NatToDecimal(c.g), JsText.NatToDecimal(c.b);
    assert JsText.IntToDecimal(c.r) == dr && JsText.IntToDecimal(c.g) == dg && JsText.IntToDecimal(c.b) == db;
    var tb := ", " + db + tail;
    var tg := ", " + dg + tb;
    assert Components(c) + tail == "" + dr + tg;
    ComponentOfDecimal("", c.r, tg);
    CommaComponentOfDecimal(c.g, tb);
    CommaComponentOfDecimal(c.b, tail);
  }

  /** A printed alpha is read back by `[\d.]+` and `parseFloat` when the printer writes it as digits and a point. */
  predicate ReadsBack(showNumber: real -> string, x: real) {
    var s := showNumber(x);
    s != [] && (forall k :: 0 <= k < |s| ==> IsNumberChar(s[k])) && ParseFloat(s) == Finite(x)
  }

  lemma AlphaTailOfNumber(shown: string)
    requires shown != [] && forall k :: 0 <= k < |shown| ==> IsNumberChar(shown[k])
    ensures AlphaTail(", " + (shown + ")")) == Some(ParseFloat(shown))
  {
    var tail := ", " + (shown + ")");
    assert tail[1..] == " " + (shown + ")");
    JsText.SpanConcat(" ", shown + ")", JsText.IsSpace);
    var t := SkipSpaces(tail[1..]);
    assert t == shown + ")";
    JsText.SpanConcat(shown, ")", IsNumberChar);
    assert t[..|shown|] == shown;
    assert t[|shown|..] == ")";
  }

  /** A string the rgb branch reads, with no surrounding whitespace, parses to what that branch reads. */
  lemma ParseOfRgbText(s: string, hsl: string -> Option<Color>, hsb: string -> Option<Color>)
    requires |s| >= 1 && s[0] == 'r' && s[|s| - 1] == ')'
    ensures RgbForm(s).Some? ==> ParseColorString(s, hsl, hsb) == RgbForm(s)
  {
    JsText.TrimOfTrimmed(s, JsText.IsSpace);
    assert JsText.Trim(s, JsText.IsSpace) == s;
    assert !IsHexForm(s);
  }

  lemma RgbFormOfPrefix(prefix: string, args: string)
    requires prefix == "rgb(" || prefix == "rgba("
    ensures RgbForm(prefix + args) == RgbArguments(args)
  {
    var t := prefix + args;
    assert t[..3] == "rgb";
    if prefix == "rgb(" {
      assert t[3] == '(' && t[3..][1..] == args;
    } else {
      assert t[3] == 'a' && t[4..][0] == '(' && t[4..][1..] == args;
    }
  }

  lemma RgbFormOfOpaque(c: Color)
    requires c.r >= 0 && c.g >= 0 && c.b >= 0
    ensures RgbForm("rgb(" + (Components(c) + ")")) == Some(c.(a := Finite(1.0)))
  {
    var args := Components(c) + ")";
    assert RgbArguments(args) == Some(c.(a := Finite(1.0))) by {
      RgbArgumentsOfComponents(c, ")");
    }
    assert RgbForm("rgb(" + args) == RgbArguments(args) by {
      RgbFormOfPrefix("rgb(", args);
    }

  }

  lemma RgbFormOfTranslucent(c: Color, shown: string)
    requires c.r >= 0 && c.g >= 0 && c.b >= 0
    requires shown != [] && forall k :: 0 <= k < |shown| ==> IsNumberChar(shown[k])
    ensures RgbForm("rgba(" + (Components(c) + (", " + (shown + ")")))) == Some(c.(a := ParseFloat(shown)))
  {
    var tail := ", " + (shown + ")");
    var args := Components(c) + tail;
    assert RgbArguments(args) == Some(c.(a := ParseFloat(shown))) by {
      AlphaTailOfNumber(shown);
      RgbArgumentsOfComponents(c, tail);
    }
    assert RgbForm("rgba(" + args) == RgbArguments(args) by {
      RgbFormOfPrefix("rgba(", args);
    }

  }

  lemma ParseOfOpaque(c: Color, hsl: string -> Option<Color>, hsb: string -> Option<Color>)
    requires c.r >= 0 && c.g >= 0 && c.b >= 0
    ensures ParseColorString("rgb(" + (Components(c) + ")"), hsl, hsb) == Some(c.(a := Finite(1.0)))
  {
    var s := "rgb(" + (Components(c) + ")");
    assert RgbForm(s) == Some(c.(a := Finite(1.0))) by {
      RgbFormOfOpaque(c);
    }
    assert s[0] == 'r' && s[|s| - 1] == ')';
    ParseOfRgbText(s, hsl, hsb);
  }

  lemma ParseOfTranslucent(c: Color, shown: string, hsl: string -> Option<Color>, hsb: string -> Option<Color>)
    requires c.r >= 0 && c.g >= 0 && c.b >= 0
    requires shown != [] && forall k :: 0 <= k < |shown| ==> IsNumberChar(shown[k])
    ensures ParseColorString("rgba(" + (Components(c) + (", " + (shown + ")"))), hsl, hsb) == Some(c.(a := ParseFloat(shown)))
  {
    var s := "rgba(" + (Components(c) + (", " + (shown + ")")));
    assert RgbForm(s) == Some(c.(a := ParseFloat(shown))) by {
      RgbFormOfTranslucent(c, shown);
    }
    assert s[0] == 'r' && s[|s| - 1] == ')';
    ParseOfRgbText(s, hsl, hsb);
  }

  /** Round trip through the rgb form: components come back; alpha comes back when printed, else it reads as 1. */
  lemma RgbRoundTrip(c: Color, showNumber: real -> string, hsl: string -> Option<Color>, hsb: string -> Option<Color>)
    requires c.r >= 0 && c.g >= 0 && c.b >= 0
    requires IsTranslucent(c.a) ==> ReadsBack(showNumber, c.a.x)
    ensures ParseColorString(ColorToString(c, Some(Rgb), showNumber).text, hsl, hsb)
            == Some(if IsTranslucent(c.a) then c else c.(a := Finite(1.0)))
  {
    if IsTranslucent(c.a) {
      ParseOfTranslucent(c, showNumber(c.a.x), hsl, hsb);
    } else {
      ParseOfOpaque(c, hsl, hsb);
    }
  }

  /** Round trip through the hex form: byte components come back, alpha reads as 1. */
  lemma HexFormRoundTrip(c: Color, hsl: string -> Option<Color>, hsb: string -> Option<Color>)
    requires InByteRange(c)
    ensures ParseColorString(RgbToHex(c), hsl, hsb) == Some(c.(a := Finite(1.0)))
  {
    var s := RgbToHex(c);
    RgbToHexShape(c);
    JsText.TrimOfTrimmed(s, JsText.IsSpace);
    assert IsHexForm(s);
  }

  /** Finding: `#abc` passes the three-or-six-digit check, but `hexToRgb` only reads six digits, so it is black. */
  lemma ShortHexIsBlack(x: char, y: char, z: char, hsl: string -> Option<Color>, hsb: string -> Option<Color>)
    requires IsHexDigit(x) && IsHexDigit(y) && IsHexDigit(z)
    ensures ParseColorString(['#', x, y, z], hsl, hsb) == Some(Black)
  {
    var s := ['#', x, y, z];
    JsText.TrimOfTrimmed(s, JsText.IsSpace);
    assert IsHexForm(s);
  }

  /** The evidently intended reading of a hex colour: a three-digit form doubles each digit. */
  function ExpandShortHex(t: string): string
    requires IsHexForm(t)
  {
    if |t| == 4 then ['#', t[1], t[1], t[2], t[2], t[3], t[3]] else t
  }

  /** `parseColorString` with shorthand hex expanded before `hexToRgb`. */
  function ParseColorStringCorrected(value: string, hsl: string -> Option<Color>, hsb: string -> Option<Color>): Option<Color> {
    var t := JsText.Trim(value, JsText.IsSpace);
    if IsHexForm(t) then Some(HexToRgb(ExpandShortHex(t), None))
    else ParseColorString(value, hsl, hsb)
  }

  /** With the correction every hex form reads its digits, and `#xyz` means `#xxyyzz`. */
  lemma CorrectedReadsShortHex(x: char, y: char, z: char, hsl: string -> Option<Color>, hsb: string -> Option<Color>)
    requires IsHexDigit(x) && IsHexDigit(y) && IsHexDigit(z)
    ensures ParseColorStringCorrected(['#', x, y, z], hsl, hsb)
            == Some(Color(17 * HexDigitValue(x), 17 * HexDigitValue(y), 17 * HexDigitValue(z), Finite(1.0)))
    ensures ParseColorStringCorrected(['#', x, y, z], hsl, hsb)
            == ParseColorStringCorrected(['#', x, x, y, y, z, z], hsl, hsb)
  {
    var s := ['#', x, y, z];
    var l := ['#', x, x, y, y, z, z];
    JsText.TrimOfTrimmed(s, JsText.IsSpace);
    JsText.TrimOfTrimmed(l, JsText.IsSpace);
    assert IsHexForm(s) && IsHexForm(l);
    assert HexBody(l) == Some(l[1..]);
  }

  /** The correction changes nothing but the three-digit hex form. */
  lemma CorrectedAgreesElsewhere(value: string, hsl: string -> Option<Color>, hsb: string -> Option<Color>)
    requires |JsText.Trim(value, JsText.IsSpace)| != 4
    ensures ParseColorStringCorrected(value, hsl, hsb) == ParseColorString(value, hsl, hsb)
  {
  }

  // Initial state of the picker root

  /** `hexToRgb(value ?? defaultValue)` with `defaultValue = '#000000'`. */
  function InitialColor(value: Option<string>, defaultValue: Option<string>): (c: Color)
    ensures InByteRange(c) && c.a == Finite(1.0)
  {
    HexToRgb(value.GetOr(defaultValue.GetOr("#000000")), None)
  }

  lemma InitialColorDefaultIsBlack()
    ensures InitialColor(None, None) == Black
  {
    assert !AllHex("#000000");
    assert HexBody("#000000") == Some("000000");
  }
}

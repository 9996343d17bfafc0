/**
 * The character and word counter shown under the editor: `strlen` in UTF-16
 * code units or in UTF-8 bytes, `countWords`, and the lazily created shared
 * `TextEncoder`.
 *
 * A JavaScript string is a sequence of UTF-16 code units, which may hold lone
 * surrogates; it is modelled as such (`Text`), not as a Dafny `string`.
 */
module CountCharacter {
  import opened Wrappers
  import JsText

  type CodeUnit = u: int | 0 <= u < 0x1_0000
  type Text = seq<CodeUnit>
  type Byte = b: int | 0 <= b < 0x100

  /** A Unicode scalar value: a code point that is not a surrogate. */
  type ScalarValue = cp: int | 0 <= cp <= 0x10FFFF && !(0xD800 <= cp <= 0xDFFF)

  predicate IsHighSurrogate(u: int) { 0xD800 <= u <= 0xDBFF }
  predicate IsLowSurrogate(u: int) { 0xDC00 <= u <= 0xDFFF }

  /** What reading a string by code points yields at each step. */
  datatype CodePoint = Scalar(cp: ScalarValue, units: nat) | LoneSurrogate(unit: CodeUnit)

  /** The code points of a string: a high surrogate followed by a low one is one supplementary scalar. */
  function Decode(t: Text): (cps: seq<CodePoint>)
    ensures Units(cps) == |t|
  {
    if t == [] then []
    else if |t| >= 2 && IsHighSurrogate(t[0]) && IsLowSurrogate(t[1]) then
      var high: int, low: int := t[0], t[1];
      [Scalar(0x10000 + (high - 0xD800) * 0x400 + (low - 0xDC00), 2)] + Decode(t[2..])
    else if IsHighSurrogate(t[0]) || IsLowSurrogate(t[0]) then
      [LoneSurrogate(t[0])] + Decode(t[1..])
    else
      [Scalar(t[0], 1)] + Decode(t[1..])
  }

  /** Number of code units the code points were read from. */
  function Units(cps: seq<CodePoint>): nat {
    if cps == [] then 0
    else (match cps[0] case Scalar(_, n) => n case LoneSurrogate(_) => 1) + Units(cps[1..])
  }

  /** UTF-8 encoding of one scalar value, as tabulated in section 3 of RFC 3629. */
  function Utf8Bytes(cp: ScalarValue): (bytes: seq<Byte>)
    ensures |bytes| == if cp < 0x80 then 1 else if cp < 0x800 then 2 else if cp < 0x10000 then 3 else 4
  {
    if cp < 0x80 then [cp]
    else if cp < 0x800 then [0xC0 + cp / 0x40, 0x80 + cp % 0x40]
    else if cp < 0x10000 then [0xE0 + cp / 0x1000, 0x80 + (cp / 0x40) % 0x40, 0x80 + cp % 0x40]
    else [0xF0 + cp / 0x40000, 0x80 + (cp / 0x1000) % 0x40, 0x80 + (cp / 0x40) % 0x40, 0x80 + cp % 0x40]
  }

  predicate IsContinuation(b: Byte) { 0x80 <= b <= 0xBF }

  /** In the UTF-8 form of a scalar every byte but the first is a continuation byte. */
  lemma Utf8Shape(cp: ScalarValue)
    ensures !IsContinuation(Utf8Bytes(cp)[0])
    ensures forall k :: 1 <= k < |Utf8Bytes(cp)| ==> IsContinuation(Utf8Bytes(cp)[k])
  {
  }

  /** Bytes of the UTF-8 form of a text; `TextEncoder` writes U+FFFD (3 bytes) for a lone surrogate. */
  function EncodedLength(cps: seq<CodePoint>): nat {
    if cps == [] then 0
    else (match cps[0] case Scalar(cp, _) => |Utf8Bytes(cp)| case LoneSurrogate(_) => 3) + EncodedLength(cps[1..])
  }

  // encodeURIComponent

  /** Characters `encodeURIComponent` leaves as they are: letters, digits and `-_.!~*'()`. */
  predicate IsUnreserved(cp: int) {
    ('A' as int <= cp <= 'Z' as int) || ('a' as int <= cp <= 'z' as int) || ('0' as int <= cp <= '9' as int)
    || cp in {'-' as int, '_' as int, '.' as int, '!' as int, '~' as int, '*' as int, '\'' as int, '(' as int, ')' as int}
  }

  /** The characters of `[89ABab]`. */
  predicate IsContinuationDigit(c: char) {
    c == '8' || c == '9' || c == 'A' || c == 'B' || c == 'a' || c == 'b'
  }

  /** The upper-case hex digit `encodeURIComponent` writes for `d`. */
  function HexUpper(d: int): (c: char)
    requires 0 <= d < 16
    ensures c != '%'
    ensures IsContinuationDigit(c) <==> 8 <= d <= 11
  {
    if d < 10 then ('0' as int + d) as char else ('A' as int + d - 10) as char
  }

  /** `%XY`: one byte as written by `encodeURIComponent`. */
  function EscapeByte(b: Byte): string {
    ['%', HexUpper(b / 16), HexUpper(b % 16)]
  }

  function EscapeBytes(bytes: seq<Byte>): (s: string)
    ensures |s| == 3 * |bytes|
    ensures multiset(s)['%'] == |bytes|
  {
    if bytes == [] then "" else EscapeByte(bytes[0]) + EscapeBytes(bytes[1..])
  }

  function EncodeScalar(cp: ScalarValue): string {
    if IsUnreserved(cp) then [cp as char] else EscapeBytes(Utf8Bytes(cp))
  }

  datatype UriError = UriError

  /** `encodeURIComponent`, which throws a URIError on a lone surrogate. */
  function EncodeUriComponent(cps: seq<CodePoint>): Result<string, UriError> {
    if cps == [] then Ok("")
    else match cps[0]
      case LoneSurrogate(_) => Err(UriError)
      case Scalar(cp, _) =>
        match EncodeUriComponent(cps[1..])
        case Err(e) => Err(e)
        case Ok(rest) => Ok(EncodeScalar(cp) + rest)
  }

  /** Number of matches of `/%[89ABab]/g`, scanning left to right without overlap. */
  function ContinuationEscapes(s: string): nat {
    if |s| < 2 then 0
    else if s[0] == '%' && IsContinuationDigit(s[1]) then 1 + ContinuationEscapes(s[2..])
    else ContinuationEscapes(s[1..])
  }

  /** The fallback `utf8Length`, as written: `text.length` plus the escapes of bytes 0x80..0xBF. */
  function Utf8LengthFallbackAsWritten(t: Text): Result<nat, UriError> {
    FallbackAsWrittenOf(|t|, Decode(t))
  }

  /** The as-written fallback for a text of `length` code units read as `cps`. */
  function FallbackAsWrittenOf(length: nat, cps: seq<CodePoint>): Result<nat, UriError> {
    match EncodeUriComponent(cps)
    case Err(e) => Err(e)
    case Ok(encoded) => Ok(length + ContinuationEscapes(encoded))
  }

  /**
   * The fallback `utf8Length`, corrected: every escape `%XY` stands for one
   * byte and every other character of the encoding for one ASCII byte.
   */
  function Utf8LengthFallback(t: Text): Result<int, UriError> {
    FallbackOf(Decode(t))
  }

  /** The corrected fallback for a text read as `cps`. */
  function FallbackOf(cps: seq<CodePoint>): Result<int, UriError> {
    match EncodeUriComponent(cps)
    case Err(e) => Err(e)
    case Ok(encoded) => Ok(|encoded| - 2 * multiset(encoded)['%'])
  }

  predicate HasLoneSurrogate(cps: seq<CodePoint>) {
    exists k :: 0 <= k < |cps| && cps[k].LoneSurrogate?
  }

  /** Neither surrogate pairs nor lone surrogates: every code point is one code unit. */
  predicate BasicPlaneOnly(cps: seq<CodePoint>) {
    forall k :: 0 <= k < |cps| ==> cps[k].Scalar? && cps[k].cp < 0x10000
  }

  lemma {:induction false} SkipOtherChar(c: char, rest: string)
    requires c != '%'
    ensures ContinuationEscapes([c] + rest) == ContinuationEscapes(rest)
  {
    if |rest| >= 1 {
      assert ([c] + rest)[1..] == rest;
    }
  }

  lemma {:induction false} EscapeByteMatches(b: Byte, rest: string)
    ensures ContinuationEscapes(EscapeByte(b) + rest)
            == (if IsContinuation(b) then 1 else 0) + ContinuationEscapes(rest)
  {
    var s := EscapeByte(b) + rest;
    var lo := HexUpper(b % 16);
    SkipOtherChar(lo, rest);
    assert s[2..] == [lo] + rest;
    if !IsContinuation(b) {
      assert s[1..] == [HexUpper(b / 16)] + ([lo] + rest);
      SkipOtherChar(HexUpper(b / 16), [lo] + rest);
    }
  }

  /** Continuation bytes among `bytes`. */
  function Continuations(bytes: seq<Byte>): nat {
    if bytes == [] then 0 else (if IsContinuation(bytes[0]) then 1 else 0) + Continuations(bytes[1..])
  }

  lemma {:induction false} EscapeBytesMatches(bytes: seq<Byte>, rest: string)
    ensures ContinuationEscapes(EscapeBytes(bytes) + rest) == Continuations(bytes) + ContinuationEscapes(rest)
  {
    if bytes != [] {
      var tail := EscapeBytes(bytes[1..]) + rest;
      EscapeBytesMatches(bytes[1..], rest);
      EscapeBytesCons(bytes, rest);
      EscapeByteMatches(bytes[0], tail);
    } else {
      assert EscapeBytes(bytes) + rest == rest;
    }
  }

  lemma EscapeBytesCons(bytes: seq<Byte>, rest: string)
    requires bytes != []
    ensures EscapeBytes(bytes) + rest == EscapeByte(bytes[0]) + (EscapeBytes(bytes[1..]) + rest)
  {
  }

  lemma {:induction false} Utf8Continuations(cp: ScalarValue)
    ensures Continuations(Utf8Bytes(cp)) == |Utf8Bytes(cp)| - 1
  {
    var bs := Utf8Bytes(cp);
    Utf8Shape(cp);
    assert Continuations(bs) == Continuations(bs[1..]);
    ContinuationsAll(bs[1..]);
  }

  lemma {:induction false} ContinuationsAll(bytes: seq<Byte>)
    requires forall k :: 0 <= k < |bytes| ==> IsContinuation(bytes[k])
    ensures Continuations(bytes) == |bytes|
  {
    if bytes != [] {
      ContinuationsAll(bytes[1..]);
    }
  }

  lemma {:induction false} EncodeScalarMatches(cp: ScalarValue, rest: string)
    ensures ContinuationEscapes(EncodeScalar(cp) + rest) == |Utf8Bytes(cp)| - 1 + ContinuationEscapes(rest)
  {
    if IsUnreserved(cp) {
      SkipOtherChar(cp as char, rest);
    } else {
      EscapeBytesMatches(Utf8Bytes(cp), rest);
      Utf8Continuations(cp);
    }
  }

  /** Sum over the code points of the continuation bytes of their UTF-8 forms. */
  function ContinuationBytes(cps: seq<CodePoint>): nat {
    if cps == [] then 0
    else (match cps[0] case Scalar(cp, _) => |Utf8Bytes(cp)| - 1 case LoneSurrogate(_) => 0) + ContinuationBytes(cps[1..])
  }

  /** The escapes the as-written fallback counts are exactly the continuation bytes. */
  lemma {:induction false} EncodedContinuationEscapes(cps: seq<CodePoint>)
    requires EncodeUriComponent(cps).Ok?
    ensures ContinuationEscapes(EncodeUriComponent(cps).value) == ContinuationBytes(cps)
  {
    if cps != [] {
      var rest := EncodeUriComponent(cps[1..]).value;
      EncodedContinuationEscapes(cps[1..]);
      EncodeScalarMatches(cps[0].cp, rest);
    }
  }

  /** Each scalar read from one code unit contributes as many bytes as the fallback counts for it. */
  lemma {:induction false} AsWrittenCountsBasicPlane(cps: seq<CodePoint>)
    requires BasicPlaneOnly(cps) && forall k :: 0 <= k < |cps| ==> cps[k].units == 1
    ensures Units(cps) + ContinuationBytes(cps) == EncodedLength(cps)
  {
    if cps != [] {
      AsWrittenCountsBasicPlane(cps[1..]);
    }
  }

  lemma {:induction false} DecodeBasicPlaneUnits(t: Text)
    requires BasicPlaneOnly(Decode(t))
    ensures forall k :: 0 <= k < |Decode(t)| ==> Decode(t)[k].units == 1
  {
    var cps := Decode(t);
    if t != [] {
      assert cps[0].Scalar? && cps[0].cp < 0x10000;
      assert cps[1..] == Decode(t[1..]);
      DecodeBasicPlaneUnits(t[1..]);
    }
  }

  lemma {:induction false} NoLoneEncodes(cps: seq<CodePoint>)
    requires !HasLoneSurrogate(cps)
    ensures EncodeUriComponent(cps).Ok?
  {
    if cps != [] {
      assert cps[0] in cps;
      assert !HasLoneSurrogate(cps[1..]) by {
        forall k | 0 <= k < |cps[1..]| ensures !cps[1..][k].LoneSurrogate? {
          assert cps[1..][k] == cps[k + 1];
        }
      }
      NoLoneEncodes(cps[1..]);
    }
  }

  /**
   * For text of the Basic Multilingual Plane without surrogates the fallback,
   * as written, agrees with the UTF-8 byte length of section 3 of RFC 3629.
   */
  lemma AsWrittenExactOnBasicPlane(t: Text)
    requires BasicPlaneOnly(Decode(t))
    ensures Utf8LengthFallbackAsWritten(t) == Ok(EncodedLength(Decode(t)))
  {
    DecodeBasicPlaneUnits(t);
    AsWrittenExactOf(Decode(t));
  }

  lemma AsWrittenExactOf(cps: seq<CodePoint>)
    requires BasicPlaneOnly(cps) && forall k :: 0 <= k < |cps| ==> cps[k].units == 1
    ensures FallbackAsWrittenOf(Units(cps), cps).Ok? && FallbackAsWrittenOf(Units(cps), cps).value == EncodedLength(cps)
  {
    BasicPlaneHasNoLone(cps);
    AsWrittenCountsContinuations(Units(cps), cps);
    AsWrittenCountsBasicPlane(cps);
  }

  /** Without lone surrogates the as-written fallback is the length plus the continuation bytes. */
  lemma AsWrittenCountsContinuations(length: nat, cps: seq<CodePoint>)
    requires !HasLoneSurrogate(cps)
    ensures FallbackAsWrittenOf(length, cps).Ok? && FallbackAsWrittenOf(length, cps).value == length + ContinuationBytes(cps)
  {
    NoLoneEncodes(cps);
    var encoded := EncodeUriComponent(cps).value;
    EncodedContinuationEscapes(cps);
    AsWrittenOfEncoded(length, cps, encoded);
  }

  lemma AsWrittenOfEncoded(length: nat, cps: seq<CodePoint>, encoded: string)
    requires EncodeUriComponent(cps) == Ok(encoded)
    ensures FallbackAsWrittenOf(length, cps) == Ok(length + ContinuationEscapes(encoded))
  {
  }

  lemma BasicPlaneHasNoLone(cps: seq<CodePoint>)
    requires BasicPlaneOnly(cps)
    ensures !HasLoneSurrogate(cps)
  {
    forall k | 0 <= k < |cps| ensures !cps[k].LoneSurrogate? {
      assert cps[k].Scalar?;
    }
  }

  /** Finding: one supplementary character (U+1F600, two code units) is counted as 5 bytes, not 4. */
  lemma AsWrittenMiscountsSurrogatePair()
    ensures Utf8LengthFallbackAsWritten([0xD83D, 0xDE00]) == Ok(5)
    ensures EncodedLength(Decode([0xD83D, 0xDE00])) == 4
  {
    var t: Text := [0xD83D, 0xDE00];
    var cps := Decode(t);
    assert cps == [Scalar(0x1F600, 2)] by {
      assert t[2..] == [];
    }
    SupplementaryMiscounted(cps);
  }

  /** A lone supplementary scalar: two code units plus three continuation escapes, against four bytes. */
  lemma SupplementaryMiscounted(cps: seq<CodePoint>)
    requires |cps| == 1 && cps[0].Scalar? && cps[0].cp >= 0x10000
    ensures FallbackAsWrittenOf(2, cps).Ok? && FallbackAsWrittenOf(2, cps).value == 5
    ensures EncodedLength(cps) == 4
  {
    assert cps[1..] == [];
    assert !HasLoneSurrogate(cps);
    AsWrittenCountsContinuations(2, cps);
  }

  /** Length of the percent-encoding minus two characters per escape, summed over the code points. */
  lemma {:induction false} EscapesMeasureBytes(cps: seq<CodePoint>)
    requires EncodeUriComponent(cps).Ok?
    ensures var e := EncodeUriComponent(cps).value;
      |e| - 2 * multiset(e)['%'] == EncodedLength(cps) && |e| >= 2 * multiset(e)['%']
  {
    if cps != [] {
      var cp := cps[0].cp;
      EscapesMeasureBytes(cps[1..]);
      if IsUnreserved(cp) {
        assert multiset(EncodeScalar(cp))['%'] == 0;
      }
    }
  }

  /** The corrected fallback is the UTF-8 byte length whenever it does not throw. */
  lemma FallbackIsUtf8Length(t: Text)
    ensures Utf8LengthFallback(t).Ok? <==> !HasLoneSurrogate(Decode(t))
    ensures Utf8LengthFallback(t).Ok? ==> Utf8LengthFallback(t).value == EncodedLength(Decode(t))
  {
    var cps := Decode(t);
    if HasLoneSurrogate(cps) {
      LoneSurrogateThrows(cps);
    } else {
      NoLoneEncodes(cps);
      EscapesMeasureBytes(cps);
    }
  }

  lemma {:induction false} LoneSurrogateThrows(cps: seq<CodePoint>)
    requires HasLoneSurrogate(cps)
    ensures EncodeUriComponent(cps).Err?
  {
    if !cps[0].LoneSurrogate? {
      var k :| 0 <= k < |cps| && cps[k].LoneSurrogate?;
      assert cps[1..][k - 1] == cps[k];
      LoneSurrogateThrows(cps[1..]);
    }
  }

  /**
   * `utf8Length`: the shared encoder's byte count when the platform has one,
   * otherwise the fallback as written. Without an encoder it throws exactly
   * on a lone surrogate, and on text of the Basic Multilingual Plane it is
   * the UTF-8 byte length either way.
   */
  function Utf8Length(t: Text, encoderAvailable: bool): (n: Result<int, UriError>)
    ensures encoderAvailable || BasicPlaneOnly(Decode(t)) ==> n == Ok(EncodedLength(Decode(t)))
    ensures !encoderAvailable ==> (n.Err? <==> HasLoneSurrogate(Decode(t)))
  {
    FallbackAsWrittenFacts(t);
    if encoderAvailable then Ok(EncodedLength(Decode(t)))
    else match Utf8LengthFallbackAsWritten(t)
      case Err(e) => Err(e)
      case Ok(m) => Ok(m)
  }

  lemma FallbackAsWrittenFacts(t: Text)
    ensures BasicPlaneOnly(Decode(t)) ==>
      Utf8LengthFallbackAsWritten(t).Ok? && Utf8LengthFallbackAsWritten(t).value == EncodedLength(Decode(t))
    ensures Utf8LengthFallbackAsWritten(t).Err? <==> HasLoneSurrogate(Decode(t))
  {
    if BasicPlaneOnly(Decode(t)) {
      AsWrittenExactOnBasicPlane(t);
    }
    AsWrittenThrowsOnLone(|t|, Decode(t));
  }

  lemma AsWrittenThrowsOnLone(length: nat, cps: seq<CodePoint>)
    ensures FallbackAsWrittenOf(length, cps).Err? <==> HasLoneSurrogate(cps)
  {
    if HasLoneSurrogate(cps) {
      LoneSurrogateThrows(cps);
    } else {
      AsWrittenCountsContinuations(length, cps);
    }
  }

  /** The two ways of measuring agree on text of the Basic Multilingual Plane. */
  lemma Utf8LengthIndependentOfPlatform(t: Text)
    requires BasicPlaneOnly(Decode(t))
    ensures Utf8Length(t, true) == Utf8Length(t, false)
  {
  }

  /** Without an encoder U+1F600 measures 5; with one, 4. */
  lemma PlatformsDisagreeOnSupplementary()
    ensures Utf8Length([0xD83D, 0xDE00], false) == Ok(5)
    ensures Utf8Length([0xD83D, 0xDE00], true) == Ok(4)
  {
    AsWrittenMiscountsSurrogatePair();
  }

  /** `utf8Length` with the corrected fallback. */
  function Utf8LengthCorrected(t: Text, encoderAvailable: bool): Result<int, UriError> {
    if encoderAvailable then Ok(EncodedLength(Decode(t))) else Utf8LengthFallback(t)
  }

  /** With the corrected fallback both ways agree on every text the fallback can encode. */
  lemma Utf8LengthCorrectedIndependentOfPlatform(t: Text)
    requires !HasLoneSurrogate(Decode(t))
    ensures Utf8LengthCorrected(t, true) == Utf8LengthCorrected(t, false)
  {
    FallbackIsUtf8Length(t);
  }

  datatype Charset = Utf8 | Utf16

  /** `strlen`: code units for UTF-16, `utf8Length` for UTF-8. */
  function Strlen(t: Text, charset: Charset, encoderAvailable: bool): (n: Result<int, UriError>)
    ensures charset == Utf16 ==> n == Ok(|t|)
    ensures charset == Utf8 && (encoderAvailable || BasicPlaneOnly(Decode(t))) ==> n == Ok(EncodedLength(Decode(t)))
    ensures charset == Utf8 && !encoderAvailable ==> (n.Err? <==> HasLoneSurrogate(Decode(t)))
  {
    match charset
    case Utf8 => Utf8Length(t, encoderAvailable)
    case Utf16 => Ok(|t|)
  }

  predicate IsSpaceUnit(u: CodeUnit) {
    JsText.IsSpaceCode(u)
  }

  /** `countWords`: `text.split(/\s+/).filter((word) => word.length > 0).length`. */
  function CountWords(t: Text): nat {
    |JsText.NonEmpty(JsText.Split(t, IsSpaceUnit))|
  }

  /** The word count is the number of maximal runs of non-whitespace, and at most the UTF-16 length. */
  lemma CountWordsIsRunCount(t: Text)
    ensures CountWords(t) == JsText.RunCount(t, IsSpaceUnit)
    ensures CountWords(t) <= |t|
  {
    JsText.SplitCountsRuns(t, IsSpaceUnit);
    JsText.RunCountBound(t, |t|, IsSpaceUnit);
  }

  /** Empty or all-whitespace text has no words. */
  lemma CountWordsOfBlank(t: Text)
    requires forall k :: 0 <= k < |t| ==> IsSpaceUnit(t[k])
    ensures CountWords(t) == 0
  {
    CountWordsIsRunCount(t);
    JsText.RunStartsOverSeparators(t, 0, |t|, IsSpaceUnit);
  }

  // The module-level `textEncoderInstance` and `textEncoder()`.

  /** Stands for a `TextEncoder` object; only its identity matters here. */
  class Encoder {
    constructor () {}
  }

  /** The module-level slot `textEncoderInstance`. */
  class EncoderSlot {
    var instance: Encoder?

    constructor ()
      ensures instance == null
    {
      instance := null;
    }

    /** `textEncoder()`: null without a platform encoder, else one instance created on first use. */
    method Get(hasWindow: bool, hasTextEncoder: bool) returns (e: Encoder?)
      modifies this
      ensures !(hasWindow && hasTextEncoder) ==> e == null && instance == old(instance)
      ensures hasWindow && hasTextEncoder && old(instance) == null ==> fresh(e) && instance == e
      ensures hasWindow && hasTextEncoder && old(instance) != null ==> e == old(instance) && instance == old(instance)
    {
      if !(hasWindow && hasTextEncoder) {
        return null;
      }
      if instance == null {
        instance := new Encoder();
      }
      e := instance;
    }
  }

  /** Two calls on an available platform return the same encoder. */
  method GetTwiceSameInstance(slot: EncoderSlot) returns (first: Encoder?, second: Encoder?)
    modifies slot
    ensures first != null && first == second
  {
    first := slot.Get(true, true);
    second := slot.Get(true, true);
  }
}

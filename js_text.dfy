/**
 * The pieces of JavaScript's string library that the editor plugins rely on:
 * the whitespace class shared by `String.prototype.trim` and the regular
 * expression `\s`, trimming, and `split(/\s+/)`.
 *
 * Trimming and splitting are generic in the element type and take the
 * separator class as a parameter, so that they serve both Dafny strings and
 * sequences of UTF-16 code units.
 */
module JsText {

  /** ECMAScript WhiteSpace and LineTerminator code points: what `trim` strips and `\s` matches. */
  predicate IsSpaceCode(c: int) {
    c == 0x09 || c == 0x0A || c == 0x0B || c == 0x0C || c == 0x0D || c == 0x20
    || c == 0xA0 || c == 0x1680 || (0x2000 <= c <= 0x200A)
    || c == 0x2028 || c == 0x2029 || c == 0x202F || c == 0x205F || c == 0x3000 || c == 0xFEFF
  }

  predicate IsSpace(ch: char) {
    IsSpaceCode(ch as int)
  }

  predicate IsDigit(ch: char) {
    '0' <= ch <= '9'
  }

  /** Length of the longest prefix of `s` whose elements all satisfy `p`. */
  function Span<T>(s: seq<T>, p: T -> bool): (n: nat)
    ensures n <= |s|
    ensures forall k :: 0 <= k < n ==> p(s[k])
    ensures n < |s| ==> !p(s[n])
  {
    if s == [] || !p(s[0]) then 0 else 1 + Span(s[1..], p)
  }

  /** Length of the longest suffix of `s` whose elements all satisfy `p`. */
  function SpanBack<T>(s: seq<T>, p: T -> bool): (n: nat)
    ensures n <= |s|
    ensures forall k :: |s| - n <= k < |s| ==> p(s[k])
    ensures n < |s| ==> !p(s[|s| - 1 - n])
  {
    if s == [] || !p(s[|s| - 1]) then 0 else 1 + SpanBack(s[..|s| - 1], p)
  }

  /** `String.prototype.trim`: drops the leading and the trailing separators. */
  function Trim<T>(s: seq<T>, sep: T -> bool): (r: seq<T>)
    ensures r == [] || (!sep(r[0]) && !sep(r[|r| - 1]))
  {
    var front := s[Span(s, sep)..];
    front[..|front| - SpanBack(front, sep)]
  }

  /** A stretch of `p` elements followed by one that is not: `Span` stops exactly there. */
  lemma {:induction false} SpanConcat<T>(a: seq<T>, b: seq<T>, p: T -> bool)
    requires forall k :: 0 <= k < |a| ==> p(a[k])
    requires b == [] || !p(b[0])
    ensures Span(a + b, p) == |a|
  {
    if a != [] {
      assert (a + b)[1..] == a[1..] + b;
      SpanConcat(a[1..], b, p);
    }
  }

  /** A string that neither starts nor ends with a separator is its own trim. */
  lemma TrimOfTrimmed<T>(s: seq<T>, sep: T -> bool)
    requires s == [] || (!sep(s[0]) && !sep(s[|s| - 1]))
    ensures Trim(s, sep) == s
  {
    if s != [] {
      assert Span(s, sep) == 0;
      assert s[0..] == s;
      assert SpanBack(s, sep) == 0;
    }
  }

  predicate NoSeparator<T>(s: seq<T>, sep: T -> bool) {
    forall k :: 0 <= k < |s| ==> !sep(s[k])
  }

  /**
   * `s.split(/\s+/)` with `\s` replaced by `sep`: the pieces between the
   * maximal runs of separators, including a leading or a trailing empty piece
   * when `s` starts or ends with a separator; `[""]` for the empty string.
   */
  function Split<T>(s: seq<T>, sep: T -> bool): (pieces: seq<seq<T>>)
    ensures |pieces| >= 1
    ensures forall k :: 0 <= k < |pieces| ==> NoSeparator(pieces[k], sep)
    decreases |s|
  {
    var i := Span(s, x => !sep(x));
    if i == |s| then [s]
    else
      var j := i + Span(s[i..], sep);
      [s[..i]] + Split(s[j..], sep)
  }

  /** The non-empty pieces, in order: `.filter((word) => word.length > 0)`. */
  function NonEmpty<T>(pieces: seq<seq<T>>): (r: seq<seq<T>>)
    ensures |r| <= |pieces|
    ensures forall k :: 0 <= k < |r| ==> |r[k]| > 0
  {
    if pieces == [] then []
    else if |pieces[0]| > 0 then [pieces[0]] + NonEmpty(pieces[1..])
    else NonEmpty(pieces[1..])
  }

  // Reference definition of "the number of words": the positions at which a
  // maximal run of non-separators starts.

  predicate IsRunStart<T>(s: seq<T>, i: nat, sep: T -> bool)
    requires i < |s|
  {
    !sep(s[i]) && (i == 0 || sep(s[i - 1]))
  }

  /** Number of run starts among the first `n` positions of `s`. */
  function RunStarts<T>(s: seq<T>, n: nat, sep: T -> bool): nat
    requires n <= |s|
  {
    if n == 0 then 0
    else RunStarts(s, n - 1, sep) + (if IsRunStart(s, n - 1, sep) then 1 else 0)
  }

  /** Number of maximal runs of non-separators in `s`. */
  function RunCount<T>(s: seq<T>, sep: T -> bool): nat {
    RunStarts(s, |s|, sep)
  }

  /** Run starts depend only on the positions up to them. */
  lemma {:induction false} RunStartsPrefix<T>(s: seq<T>, m: nat, n: nat, sep: T -> bool)
    requires n <= m <= |s|
    ensures RunStarts(s, n, sep) == RunStarts(s[..m], n, sep)
  {
    if n > 0 {
      RunStartsPrefix(s, m, n - 1, sep);
      assert IsRunStart(s, n - 1, sep) == IsRunStart(s[..m], n - 1, sep);
    }
  }

  /** After a separator at position `j - 1`, the run starts of the rest are those of `s[j..]`. */
  lemma {:induction false} RunStartsShift<T>(s: seq<T>, j: nat, n: nat, sep: T -> bool)
    requires 0 < j <= n <= |s| && sep(s[j - 1])
    ensures RunStarts(s, n, sep) == RunStarts(s, j, sep) + RunStarts(s[j..], n - j, sep)
  {
    if n > j {
      RunStartsShift(s, j, n - 1, sep);
      assert IsRunStart(s, n - 1, sep) == IsRunStart(s[j..], n - 1 - j, sep);
    }
  }

  /** A stretch of separators contains no run start. */
  lemma {:induction false} RunStartsOverSeparators<T>(s: seq<T>, i: nat, n: nat, sep: T -> bool)
    requires i <= n <= |s|
    requires forall k :: i <= k < n ==> sep(s[k])
    ensures RunStarts(s, n, sep) == RunStarts(s, i, sep)
  {
    if n > i {
      RunStartsOverSeparators(s, i, n - 1, sep);
    }
  }

  /** A stretch without separators at the front of `s` holds exactly one run start, if it is not empty. */
  lemma {:induction false} RunStartsOverWord<T>(s: seq<T>, n: nat, sep: T -> bool)
    requires n <= |s|
    requires forall k :: 0 <= k < n ==> !sep(s[k])
    ensures RunStarts(s, n, sep) == if n == 0 then 0 else 1
  {
    if n > 0 {
      RunStartsOverWord(s, n - 1, sep);
    }
  }

  /** `split` followed by dropping empty pieces counts the maximal runs of non-separators. */
  lemma {:induction false} SplitCountsRuns<T>(s: seq<T>, sep: T -> bool)
    ensures |NonEmpty(Split(s, sep))| == RunCount(s, sep)
    decreases |s|
  {
    var i := Span(s, x => !sep(x));
    if i == |s| {
      assert Split(s, sep) == [s];
      assert NonEmpty([s]) == if |s| > 0 then [s] else [];
      RunStartsOverWord(s, |s|, sep);
    } else {
      var j := i + Span(s[i..], sep);
      var rest := Split(s[j..], sep);
      assert Split(s, sep) == [s[..i]] + rest;
      NonEmptyCons(s[..i], rest);
      SplitCountsRuns(s[j..], sep);
      assert forall k :: i <= k < j ==> sep(s[k]) by {
        forall k | i <= k < j ensures sep(s[k]) {
          assert s[i..][k - i] == s[k];
        }
      }
      RunsAfterFirstWord(s, i, j, sep);
    }
  }

  lemma NonEmptyCons<T>(w: seq<T>, rest: seq<seq<T>>)
    ensures |NonEmpty([w] + rest)| == (if |w| > 0 then 1 else 0) + |NonEmpty(rest)|
  {
    assert ([w] + rest)[1..] == rest;
  }

  /** A word of length `i` then separators up to `j`: one run if the word is not empty, then the runs after `j`. */
  lemma RunsAfterFirstWord<T>(s: seq<T>, i: nat, j: nat, sep: T -> bool)
    requires i < j <= |s|
    requires forall k :: 0 <= k < i ==> !sep(s[k])
    requires forall k :: i <= k < j ==> sep(s[k])
    ensures RunCount(s, sep) == (if i > 0 then 1 else 0) + RunCount(s[j..], sep)
  {
    RunStartsOverWord(s, i, sep);
    RunStartsOverSeparators(s, i, j, sep);
    RunStartsShift(s, j, |s|, sep);
  }

  /** Leading separators do not change the number of runs. */
  lemma LeadingSeparators<T>(s: seq<T>, k: nat, sep: T -> bool)
    requires k <= |s|
    requires forall i :: 0 <= i < k ==> sep(s[i])
    ensures RunCount(s[k..], sep) == RunCount(s, sep)
  {
    if k > 0 {
      RunStartsOverSeparators(s, 0, k, sep);
      RunStartsShift(s, k, |s|, sep);
    }
  }

  /** Trailing separators do not change the number of runs. */
  lemma TrailingSeparators<T>(s: seq<T>, m: nat, sep: T -> bool)
    requires m <= |s|
    requires forall i :: m <= i < |s| ==> sep(s[i])
    ensures RunCount(s[..m], sep) == RunCount(s, sep)
  {
    RunStartsOverSeparators(s, m, |s|, sep);
    RunStartsPrefix(s, m, m, sep);
  }

  /** Trimming keeps every run. */
  lemma TrimKeepsRuns<T>(s: seq<T>, sep: T -> bool)
    ensures RunCount(Trim(s, sep), sep) == RunCount(s, sep)
  {
    var front := s[Span(s, sep)..];
    LeadingSeparators(s, Span(s, sep), sep);
    TrailingSeparators(front, |front| - SpanBack(front, sep), sep);
  }

  /** Every piece of a string that neither starts nor ends with a separator is non-empty. */
  lemma {:induction false} SplitOfTrimmed<T>(s: seq<T>, sep: T -> bool)
    requires s != [] && !sep(s[0]) && !sep(s[|s| - 1])
    ensures NonEmpty(Split(s, sep)) == Split(s, sep)
    decreases |s|
  {
    var i := Span(s, x => !sep(x));
    if i < |s| {
      var j := i + Span(s[i..], sep);
      var rest := Split(s[j..], sep);
      assert Split(s, sep) == [s[..i]] + rest;
      assert ([s[..i]] + rest)[1..] == rest;
      assert j < |s|;
      assert s[j..][0] == s[j];
      SplitOfTrimmed(s[j..], sep);
    }
  }

  /** `trim().split(/\s+/).length`: the number of words, and 1 for a blank string. */
  function PieceCount<T>(s: seq<T>, sep: T -> bool): (n: nat)
    ensures n >= 1
  {
    |Split(Trim(s, sep), sep)|
  }

  lemma PieceCountIsWordCount<T>(s: seq<T>, sep: T -> bool)
    ensures PieceCount(s, sep) == if RunCount(s, sep) == 0 then 1 else RunCount(s, sep)
  {
    var t := Trim(s, sep);
    TrimKeepsRuns(s, sep);
    if t == [] {
      assert Split(t, sep) == [t];
    } else {
      SplitOfTrimmed(t, sep);
      SplitCountsRuns(t, sep);
      assert RunCount(t, sep) >= 1 by {
        RunStartsShift1(t, sep);
      }
    }
  }

  /** A string whose first element is not a separator has a run. */
  lemma RunStartsShift1<T>(t: seq<T>, sep: T -> bool)
    requires t != [] && !sep(t[0])
    ensures RunCount(t, sep) >= 1
  {
    RunStartsPrefix(t, |t|, 1, sep);
    RunStartsMonotone(t, 1, |t|, sep);
  }

  lemma {:induction false} RunStartsMonotone<T>(s: seq<T>, m: nat, n: nat, sep: T -> bool)
    requires m <= n <= |s|
    ensures RunStarts(s, m, sep) <= RunStarts(s, n, sep)
  {
    if m < n {
      RunStartsMonotone(s, m, n - 1, sep);
    }
  }

  /** Each run is at least one element long, so there are no more runs than elements. */
  lemma {:induction false} RunCountBound<T>(s: seq<T>, n: nat, sep: T -> bool)
    requires n <= |s|
    ensures RunStarts(s, n, sep) <= n
  {
    if n > 0 {
      RunCountBound(s, n - 1, sep);
    }
  }

  // Decimal numerals

  function DecimalDigit(d: nat): (c: char)
    requires d < 10
    ensures IsDigit(c) && c as int - '0' as int == d
  {
    "0123456789"[d]
  }

  predicate AllDigits(s: string) {
    forall k :: 0 <= k < |s| ==> IsDigit(s[k])
  }

  /** The value of a string of decimal digits, as `parseInt(s, 10)` reads it. */
  function DigitsValue(s: string): nat
    requires AllDigits(s)
  {
    if s == [] then 0
    else 10 * DigitsValue(s[..|s| - 1]) + (s[|s| - 1] as int - '0' as int)
  }

  /** `String(n)` for a non-negative integer. */
  function NatToDecimal(n: nat): (s: string)
    ensures |s| >= 1 && AllDigits(s)
  {
    (if n < 10 then "" else NatToDecimal(n / 10)) + [DecimalDigit(n % 10)]
  }

  /** `String(n)` for an integer. */
  function IntToDecimal(n: int): string {
    if n < 0 then "-" + NatToDecimal(-n) else NatToDecimal(n)
  }

  lemma {:induction false} DecimalRoundTrip(n: nat)
    ensures DigitsValue(NatToDecimal(n)) == n
  {
    var s := NatToDecimal(n);
    var front := if n < 10 then "" else NatToDecimal(n / 10);
    var last := DecimalDigit(n % 10);
    assert s == front + [last];
    assert s[..|s| - 1] == front;
    assert s[|s| - 1] == last;
    if n >= 10 {
      DecimalRoundTrip(n / 10);
    }
  }
}

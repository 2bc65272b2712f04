/** The slice of JavaScript's string semantics the components rely on:
    `length` counts UTF-16 code units, `trim()` strips the ECMAScript
    white-space and line-terminator code points from both ends, and
    `replace(pattern, "")` with a string pattern removes only the first
    occurrence. */
module JsText {

  /** One UTF-16 code unit, the unit JavaScript's `length` counts. */
  newtype CodeUnit = n: int | 0 <= n < 0x1_0000

  /** A JavaScript string value. */
  type JsString = seq<CodeUnit>

  const WhitespaceUnits: set<CodeUnit> :=
    {0x09, 0x0A, 0x0B, 0x0C, 0x0D, 0x20, 0xA0, 0x1680,
     0x2000, 0x2001, 0x2002, 0x2003, 0x2004, 0x2005, 0x2006, 0x2007, 0x2008, 0x2009, 0x200A,
     0x2028, 0x2029, 0x202F, 0x205F, 0x3000, 0xFEFF}

  /** The code points `String.prototype.trim` removes: ECMAScript WhiteSpace
      (tab, vertical tab, form feed, ZWNBSP and the Unicode space separators)
      and LineTerminator (LF, CR, LS, PS). Every one of them lies in the basic
      multilingual plane, so it is a single code unit. */
  predicate IsWhitespace(u: CodeUnit) {
    u in WhitespaceUnits
  }

  predicate AllWhitespace(s: JsString) {
    forall i :: 0 <= i < |s| ==> IsWhitespace(s[i])
  }

  /** The first index at or after `i` that does not hold white space
      (`|s|` when there is none). */
  function SkipLeading(s: JsString, i: nat): (k: nat)
    requires i <= |s|
    ensures i <= k <= |s|
    ensures forall j :: i <= j < k ==> IsWhitespace(s[j])
    ensures k < |s| ==> !IsWhitespace(s[k])
    decreases |s| - i
  {
    if i < |s| && IsWhitespace(s[i]) then SkipLeading(s, i + 1) else i
  }

  /** The end of `s[lo..j]` once its trailing white space is dropped. */
  function SkipTrailing(s: JsString, lo: nat, j: nat): (k: nat)
    requires lo <= j <= |s|
    ensures lo <= k <= j
    ensures forall m :: k <= m < j ==> IsWhitespace(s[m])
    ensures k > lo ==> !IsWhitespace(s[k - 1])
    decreases j
  {
    if j > lo && IsWhitespace(s[j - 1]) then SkipTrailing(s, lo, j - 1) else j
  }

  /** Where the trimmed text starts in `s`. */
  function TrimStartIndex(s: JsString): nat
  {
    SkipLeading(s, 0)
  }

  /** Where the trimmed text ends in `s`. */
  function TrimEndIndex(s: JsString): nat
  {
    SkipTrailing(s, TrimStartIndex(s), |s|)
  }

  /** `String.prototype.trim`: `s` with white space stripped from both ends.
      It is empty exactly when `s` is white space only, and otherwise starts
      and ends with a non-white-space unit; `TrimIsInfix` adds that only
      white space surrounds it in `s`. */
  function Trim(s: JsString): (r: JsString)
    ensures |r| <= |s|
    ensures r == [] <==> AllWhitespace(s)
    ensures r != [] ==> !IsWhitespace(r[0]) && !IsWhitespace(r[|r| - 1])
  {
    var lo := TrimStartIndex(s);
    var hi := TrimEndIndex(s);
    assert lo == hi ==> forall i :: 0 <= i < |s| ==> IsWhitespace(s[i]);
    s[lo..hi]
  }

  /** The trimmed text is the infix of `s` with only white space before and
      after it. */
  lemma TrimIsInfix(s: JsString)
    ensures exists lo :: 0 <= lo <= |s| - |Trim(s)| && Trim(s) == s[lo..lo + |Trim(s)|]
                         && AllWhitespace(s[..lo]) && AllWhitespace(s[lo + |Trim(s)|..])
  {
    var lo := TrimStartIndex(s);
    var hi := TrimEndIndex(s);
    assert AllWhitespace(s[..lo]);
    assert AllWhitespace(s[hi..]);
    assert Trim(s) == s[lo..lo + |Trim(s)|];
  }

  lemma {:induction false} SkipLeadingOfPadded(s: JsString, pad: JsString, i: nat)
    requires i <= |s| && SkipLeading(s, i) < |s|
    ensures SkipLeading(s + pad, i) == SkipLeading(s, i)
    decreases |s| - i
  {
    assert (s + pad)[i] == s[i];
    if IsWhitespace(s[i]) {
      SkipLeadingOfPadded(s, pad, i + 1);
    }
  }

  lemma SkipTrailingOverPad(s: JsString, pad: JsString, lo: nat, j: nat)
    requires AllWhitespace(pad)
    requires lo <= |s| <= j <= |s + pad|
    ensures SkipTrailing(s + pad, lo, j) == SkipTrailing(s + pad, lo, |s|)
  {
  }

  lemma {:induction false} SkipTrailingOfPadded(s: JsString, pad: JsString, lo: nat, j: nat)
    requires lo <= j <= |s|
    ensures SkipTrailing(s + pad, lo, j) == SkipTrailing(s, lo, j)
    decreases j
  {
    if j > lo {
      assert (s + pad)[j - 1] == s[j - 1];
      SkipTrailingOfPadded(s, pad, lo, j - 1);
    }
  }

  /** Appending white space changes the raw length but never the trimmed
      text: `(s + pad).trim() == s.trim()`. */
  lemma TrimIgnoresTrailingWhitespace(s: JsString, pad: JsString)
    requires AllWhitespace(pad)
    ensures Trim(s + pad) == Trim(s)
  {
    if AllWhitespace(s) {
      WhitespaceConcat(s, pad);
    } else {
      SkipLeadingOfPadded(s, pad, 0);
      var lo := TrimStartIndex(s);
      SkipTrailingOverPad(s, pad, lo, |s + pad|);
      SkipTrailingOfPadded(s, pad, lo, |s|);
      assert (s + pad)[lo..TrimEndIndex(s)] == s[lo..TrimEndIndex(s)];
    }
  }

  lemma WhitespaceConcat(a: JsString, b: JsString)
    requires AllWhitespace(a) && AllWhitespace(b)
    ensures AllWhitespace(a + b)
  {
  }

  /** Trimming twice is the same as trimming once. */
  lemma TrimIdempotent(s: JsString)
    ensures Trim(Trim(s)) == Trim(s)
  {
  }

  /** A BMP-only Dafny string as the code units JavaScript would store. */
  function Units(s: string): (r: JsString)
    requires forall i :: 0 <= i < |s| ==> s[i] as int < 0x1_0000
    ensures |r| == |s|
    ensures forall i :: 0 <= i < |s| ==> r[i] as int == s[i] as int
  {
    seq(|s|, i requires 0 <= i < |s| => s[i] as int as CodeUnit)
  }

  /** Index of the first `x` in `s`, or `|s|` when there is none. */
  function FirstIndex<T(==)>(s: seq<T>, x: T): (i: nat)
    ensures i <= |s|
    ensures forall j :: 0 <= j < i ==> s[j] != x
    ensures i < |s| ==> s[i] == x
    ensures i == |s| <==> x !in s
  {
    if |s| == 0 || s[0] == x then 0 else 1 + FirstIndex(s[1..], x)
  }

  /** `s.replace(x, "")` with a single-character string pattern: only the
      first occurrence of `x` is removed. */
  function RemoveFirst<T(==)>(s: seq<T>, x: T): (r: seq<T>)
    ensures x !in s ==> r == s
    ensures x in s ==> |r| == |s| - 1
                       && s == r[..FirstIndex(s, x)] + [x] + r[FirstIndex(s, x)..]
  {
    var i := FirstIndex(s, x);
    if i == |s| then
      s
    else
      var r := s[..i] + s[i + 1..];
      assert s == s[..i] + [x] + s[i + 1..];
      assert r[..i] == s[..i] && r[i..] == s[i + 1..];
      r
  }

  /** Removing the first `x` from `[x] + t` gives back `t`, whatever `t`
      holds, including further copies of `x`. */
  lemma RemoveFirstLeading<T>(x: T, t: seq<T>)
    ensures RemoveFirst([x] + t, x) == t
  {
  }
}

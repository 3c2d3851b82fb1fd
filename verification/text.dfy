/**
 Character classes and the Python string primitives the analyzer is built from:
 counting newlines (for line numbers), substring search in both directions,
 clamped slicing, maximal runs of a character class, and decimal conversion.
 Strings are sequences of Unicode scalar values; unlike a Python `str`, they
 cannot hold a lone surrogate code point.
 */
module Text {

  datatype Option<T> = None | Some(value: T)

  /** Python's `\s` on `str` patterns: exactly the characters for which `str.isspace()` holds. */
  predicate IsSpace(c: char) {
    || '\t' <= c <= '\r'
    || '\U{1c}' <= c <= ' '
    || c == '\U{85}' || c == '\U{a0}' || c == '\U{1680}'
    || '\U{2000}' <= c <= '\U{200a}'
    || c == '\U{2028}' || c == '\U{2029}' || c == '\U{202f}' || c == '\U{205f}' || c == '\U{3000}'
  }

  /** `\d`, restricted to the ASCII digits. */
  predicate IsDigit(c: char) {
    '0' <= c <= '9'
  }

  /** `\w`, restricted to ASCII letters, digits and the underscore. */
  predicate IsWordChar(c: char) {
    'a' <= c <= 'z' || 'A' <= c <= 'Z' || IsDigit(c) || c == '_'
  }

  function Min(a: int, b: int): (r: int) {
    if a <= b then a else b
  }

  /** Number of `'\n'` characters in `s` (Python's `s.count('\n')`). */
  function CountNewlines(s: string): (r: nat)
    ensures r <= |s|
  {
    if s == [] then 0
    else CountNewlines(s[..|s| - 1]) + (if s[|s| - 1] == '\n' then 1 else 0)
  }

  lemma {:induction false} CountNewlinesAppend(a: string, b: string)
    ensures CountNewlines(a + b) == CountNewlines(a) + CountNewlines(b)
    decreases |b|
  {
    if b == [] {
      assert a + b == a;
    } else {
      assert (a + b)[..|a + b| - 1] == a + b[..|b| - 1];
      CountNewlinesAppend(a, b[..|b| - 1]);
    }
  }

  /**
   The 1-based line of offset `k`: one more than the newlines in `code[:k]`.
   Python clamps the slice bound, and so does this definition. A line is at
   least 1 and at most one more than the number of newlines in the whole text.
   */
  function LineNumber(code: string, k: nat): (r: nat)
    ensures 1 <= r <= CountNewlines(code) + 1
  {
    var j := Min(k, |code|);
    assert code[..j] + code[j..] == code;
    CountNewlinesAppend(code[..j], code[j..]);
    CountNewlines(code[..j]) + 1
  }

  /** Stepping one character forward raises the line number exactly when that character is a newline. */
  lemma LineNumberStep(code: string, k: nat)
    requires k < |code|
    ensures LineNumber(code, k + 1) == LineNumber(code, k) + (if code[k] == '\n' then 1 else 0)
  {
    assert code[..k + 1][..k] == code[..k];
  }

  /** Line numbers never decrease as the offset grows. */
  lemma {:induction false} LineNumberMonotone(code: string, k1: nat, k2: nat)
    requires k1 <= k2
    ensures LineNumber(code, k1) <= LineNumber(code, k2)
    decreases k2 - k1
  {
    if k1 < k2 {
      if k1 < |code| {
        LineNumberStep(code, k1);
        LineNumberMonotone(code, k1 + 1, k2);
      } else {
        assert Min(k1, |code|) == Min(k2, |code|);
      }
    }
  }

  /** `pat` occurs in `s` starting at offset `i`. */
  predicate OccursAt(s: string, pat: string, i: nat) {
    i + |pat| <= |s| && s[i..i + |pat|] == pat
  }

  /** Python's `pat in s`. */
  predicate Contains(s: string, pat: string) {
    exists i: nat | i <= |s| :: OccursAt(s, pat, i)
  }

  /** `pat in s[lo:hi]`: the slice holds `pat` exactly when an occurrence of it in `s` lies within `[lo, hi)`. */
  lemma ContainsInSlice(s: string, lo: nat, hi: nat, pat: string)
    requires lo <= hi <= |s|
    ensures Contains(s[lo..hi], pat) <==> exists p: nat :: lo <= p && p + |pat| <= hi && OccursAt(s, pat, p)
  {
    var w := s[lo..hi];
    if Contains(w, pat) {
      var i: nat :| i <= |w| && OccursAt(w, pat, i);
      var a, b := s[lo + i..lo + i + |pat|], w[i..i + |pat|];
      forall t | 0 <= t < |pat|
        ensures a[t] == b[t]
      {
        assert w[i + t] == s[lo + i + t];
      }
      assert a == b;
      assert OccursAt(s, pat, lo + i);
    }
    if p: nat :| lo <= p && p + |pat| <= hi && OccursAt(s, pat, p) {
      var a, b := w[p - lo..p - lo + |pat|], s[p..p + |pat|];
      forall t | 0 <= t < |pat|
        ensures a[t] == b[t]
      {
        assert w[p - lo + t] == s[p + t];
      }
      assert a == b;
      assert OccursAt(w, pat, p - lo);
    }
  }

  /**
   Python's `s.find(pat, from)`: the first occurrence at or after `from`, or -1.
   `s.index(pat)` on a string that contains `pat` is `FindFrom(s, pat, 0)`.
   */
  function FindFrom(s: string, pat: string, from: nat): (r: int)
    ensures r == -1 || (from <= r && OccursAt(s, pat, r))
    ensures r == -1 ==> forall i: nat :: from <= i ==> !OccursAt(s, pat, i)
    ensures r != -1 ==> forall i: nat :: from <= i < r ==> !OccursAt(s, pat, i)
    decreases |s| - from
  {
    if from + |pat| > |s| then
      assert forall i: nat :: from <= i ==> !OccursAt(s, pat, i);
      -1
    else if s[from..from + |pat|] == pat then from
    else FindFrom(s, pat, from + 1)
  }

  /** Python's `s.rfind(c, 0, end)` for a single character: the last `c` strictly before `end`, or -1. */
  function RFindChar(s: string, c: char, end: nat): (r: int)
    ensures -1 <= r < Min(end, |s|)
    ensures r != -1 ==> s[r] == c
    ensures forall j :: r < j < Min(end, |s|) ==> s[j] != c
    decreases end
  {
    var e := Min(end, |s|);
    if e == 0 then -1
    else if s[e - 1] == c then e - 1
    else RFindChar(s, c, e - 1)
  }

  /** Python's `s[i:j]` for non-negative bounds: both bounds are clamped, and a reversed range is empty. */
  function Slice(s: string, i: nat, j: nat): (r: string)
    ensures i <= j <= |s| ==> r == s[i..j]
  {
    var lo := Min(i, |s|);
    var hi := Min(j, |s|);
    if lo <= hi then s[lo..hi] else []
  }

  /** The end of the maximal run of characters satisfying `p` that starts at `i`. */
  function SkipWhile(s: string, i: nat, p: char -> bool): (r: nat)
    requires i <= |s|
    ensures i <= r <= |s|
    ensures forall k :: i <= k < r ==> p(s[k])
    ensures r < |s| ==> !p(s[r])
    decreases |s| - i
  {
    if i < |s| && p(s[i]) then SkipWhile(s, i + 1, p) else i
  }

  function DigitValue(c: char): (r: nat) {
    if IsDigit(c) then c as int - '0' as int else 0
  }

  /** Python's `int(ds)` for a string of ASCII digits. */
  function DigitsValue(ds: string): (r: nat) {
    if ds == [] then 0
    else 10 * DigitsValue(ds[..|ds| - 1]) + DigitValue(ds[|ds| - 1])
  }

  /** Python's `str(n)` for a natural number: its decimal digits without leading zeros. */
  function DecimalString(n: nat): (r: string)
    ensures |r| >= 1
    ensures forall k :: 0 <= k < |r| ==> IsDigit(r[k])
    ensures |r| > 1 ==> r[0] != '0'
  {
    var last := (('0' as int) + n % 10) as char;
    if n < 10 then [last] else DecimalString(n / 10) + [last]
  }

  /** Rendering a number in decimal and reading it back gives the number: `int(str(n)) == n`. */
  lemma {:induction false} DecimalStringRoundTrip(n: nat)
    ensures DigitsValue(DecimalString(n)) == n
  {
    var r := DecimalString(n);
    if n >= 10 {
      DecimalStringRoundTrip(n / 10);
      assert r[..|r| - 1] == DecimalString(n / 10);
    }
  }
}

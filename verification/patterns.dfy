/**
 The regular expressions of the analyzer, as hand-written matchers.

 Every pattern here but one is a literal head, then `\s*`, then a tail that
 cannot start with whitespace. For such a pattern the greedy `\s*` can only
 succeed by taking the whole whitespace run (giving any of it back would leave
 the tail facing a whitespace character), and likewise `\d+` followed by `)`
 and `[\d.]+` at the end of a pattern take their maximal run. So each match
 is determined by its start, and a matcher needs no backtracking.

 The force-unwrap pattern `(?<!try)!\s*(?![=])` is the exception worth
 spelling out: after a `!` not preceded by `try`, the greedy `\s*` takes the
 whitespace run; if `=` follows the run, one whitespace character is given
 back (the look-ahead then sees whitespace), and with an empty run there is
 no match at all.
 */
module Patterns {
  import opened Text

  /** What follows the head and its `\s*`. */
  datatype Tail =
    | CaptureInt        // (\d+)\)   one group: the digits
    | NumberChars       // [\d.]+
    | Lit(text: string) // a literal

  datatype Pattern =
    | Exact(text: string)                  // a literal alone
    | SpacedThen(head: string, tail: Tail) // head, \s*, tail
    | Bang                                 // (?<!try)!\s*(?![=])

  /** A match: its span `[start, end)` and the text of group 1 (empty when the pattern has none). */
  datatype Match = Match(start: nat, end: nat, group: string)

  /** Literal patterns need a non-empty literal, so that every match is non-empty. */
  predicate ValidPattern(p: Pattern) {
    match p
    case Exact(t) => t != []
    case SpacedThen(h, _) => h != []
    case Bang => true
  }

  predicate IsNumberChar(c: char) {
    IsDigit(c) || c == '.'
  }

  predicate PrecededByTry(code: string, i: nat) {
    3 <= i <= |code| && code[i - 3..i] == "try"
  }

  /** The match of `p` that starts at offset `i`, if any (Python's `pattern.match(code, i)`). */
  function MatchAt(code: string, i: nat, p: Pattern): (r: Option<Match>)
    requires ValidPattern(p)
    ensures r.Some? ==> r.value.start == i && i < r.value.end <= |code|
  {
    match p
    case Exact(t) => if OccursAt(code, t, i) then Some(Match(i, i + |t|, [])) else None
    case SpacedThen(h, tail) => if OccursAt(code, h, i) then MatchTail(code, i, i + |h|, tail) else None
    case Bang => MatchBang(code, i)
  }

  /**
   The rest of a `head \s* tail` match whose head spans `[i, afterHead)`.
   For `(\d+)\)` the group is a non-empty run of digits and the match ends
   just after the `)`.
   */
  function MatchTail(code: string, i: nat, afterHead: nat, tail: Tail): (r: Option<Match>)
    requires i < afterHead <= |code|
    ensures r.Some? ==> r.value.start == i && i < r.value.end <= |code|
    ensures r.Some? && tail == CaptureInt ==>
      && |r.value.group| >= 1
      && (forall t | 0 <= t < |r.value.group| :: IsDigit(r.value.group[t]))
      && code[r.value.end - 1] == ')'
  {
    var j := SkipWhile(code, afterHead, IsSpace);
    match tail
    case CaptureInt =>
      var k := SkipWhile(code, j, IsDigit);
      if j < k < |code| && code[k] == ')' then Some(Match(i, k + 1, code[j..k])) else None
    case NumberChars =>
      var k := SkipWhile(code, j, IsNumberChar);
      if j < k then Some(Match(i, k, [])) else None
    case Lit(t) =>
      if OccursAt(code, t, j) then Some(Match(i, j + |t|, [])) else None
  }

  /** `(?<!try)!\s*(?![=])` at offset `i`: a `!` not preceded by `try`, then whitespace only. */
  function MatchBang(code: string, i: nat): (r: Option<Match>)
    ensures r.Some? ==> r.value.start == i && i < r.value.end <= |code|
    ensures r.Some? ==> code[i] == '!' && !PrecededByTry(code, i)
    ensures r.Some? ==> forall t | i < t < r.value.end :: IsSpace(code[t])
  {
    if i < |code| && code[i] == '!' && !PrecededByTry(code, i) then
      var j := SkipWhile(code, i + 1, IsSpace);
      if j < |code| && code[j] == '=' then
        if j == i + 1 then None else Some(Match(i, j - 1, []))
      else Some(Match(i, j, []))
    else None
  }

  /**
   Python's `re.finditer(p, code)` from offset `from`: try each offset left to
   right; after a match, resume at its end.
   */
  function FindAll(code: string, p: Pattern, from: nat): (r: seq<Match>)
    requires ValidPattern(p)
    ensures forall k :: 0 <= k < |r| ==> from <= r[k].start < r[k].end <= |code|
    decreases |code| + 1 - from
  {
    if from > |code| then []
    else
      match MatchAt(code, from, p)
      case Some(m) => [m] + FindAll(code, p, m.end)
      case None => FindAll(code, p, from + 1)
  }

  /** Offset `q` lies inside one of the matches `ms`. */
  predicate Covered(ms: seq<Match>, q: nat) {
    exists k :: 0 <= k < |ms| && ms[k].start <= q < ms[k].end
  }

  predicate IsMatchStart(code: string, q: nat, p: Pattern)
    requires ValidPattern(p)
  {
    MatchAt(code, q, p).Some?
  }

  /** Every match in `ms` is the match of `p` at its start, at or after `from`. */
  predicate RealMatches(code: string, p: Pattern, from: nat, ms: seq<Match>)
    requires ValidPattern(p)
  {
    forall k :: 0 <= k < |ms| ==> from <= ms[k].start && MatchAt(code, ms[k].start, p) == Some(ms[k])
  }

  /** The matches `ms` are in left-to-right order and do not overlap. */
  predicate LeftToRight(ms: seq<Match>) {
    forall k :: 0 <= k < |ms| - 1 ==> ms[k].end <= ms[k + 1].start
  }

  /** The scan reports only real matches, each at or after `from`. */
  lemma {:induction false} FindAllSound(code: string, p: Pattern, from: nat)
    requires ValidPattern(p)
    ensures RealMatches(code, p, from, FindAll(code, p, from))
    decreases |code| + 1 - from
  {
    if from <= |code| {
      var o := MatchAt(code, from, p);
      if o.Some? {
        FindAllSound(code, p, o.value.end);
        var rest := FindAll(code, p, o.value.end);
        assert FindAll(code, p, from) == [o.value] + rest;
      } else {
        FindAllSound(code, p, from + 1);
      }
    }
  }

  /** The scan reports matches left to right, without overlap. */
  lemma {:induction false} FindAllLeftToRight(code: string, p: Pattern, from: nat)
    requires ValidPattern(p)
    ensures LeftToRight(FindAll(code, p, from))
    decreases |code| + 1 - from
  {
    if from <= |code| {
      var o := MatchAt(code, from, p);
      if o.Some? {
        FindAllLeftToRight(code, p, o.value.end);
        FindAllSound(code, p, o.value.end);
        var rest := FindAll(code, p, o.value.end);
        assert FindAll(code, p, from) == [o.value] + rest;
        if |rest| > 0 {
          assert o.value.end <= rest[0].start;
        }
      } else {
        FindAllLeftToRight(code, p, from + 1);
      }
    }
  }

  /** The scan misses only matches that start inside a reported one. */
  lemma {:induction false} FindAllComplete(code: string, p: Pattern, from: nat, q: nat)
    requires ValidPattern(p)
    requires from <= q && IsMatchStart(code, q, p)
    ensures Covered(FindAll(code, p, from), q)
    decreases |code| + 1 - from
  {
    assert MatchAt(code, q, p).Some?;
    assert from <= |code|;
    var r := FindAll(code, p, from);
    var o := MatchAt(code, from, p);
    if o.Some? {
      var rest := FindAll(code, p, o.value.end);
      assert r == [o.value] + rest;
      if q < o.value.end {
        assert r[0].start <= q < r[0].end;
      } else {
        FindAllComplete(code, p, o.value.end, q);
        var k :| 0 <= k < |rest| && rest[k].start <= q < rest[k].end;
        assert r[k + 1] == rest[k];
      }
    } else {
      assert q != from;
      FindAllComplete(code, p, from + 1, q);
    }
  }

  predicate StartsAscending(ms: seq<Match>) {
    forall i, j :: 0 <= i < j < |ms| ==> ms[i].start < ms[j].start
  }

  /** The scan reports strictly increasing start offsets. */
  lemma {:induction false} FindAllAscending(code: string, p: Pattern, from: nat)
    requires ValidPattern(p)
    ensures StartsAscending(FindAll(code, p, from))
    decreases |code| + 1 - from
  {
    if from <= |code| {
      var o := MatchAt(code, from, p);
      if o.Some? {
        FindAllAscending(code, p, o.value.end);
        FindAllSound(code, p, o.value.end);
        var rest := FindAll(code, p, o.value.end);
        var r := [o.value] + rest;
        assert FindAll(code, p, from) == r;
        assert forall k :: 1 <= k < |r| ==> r[k] == rest[k - 1];
      } else {
        FindAllAscending(code, p, from + 1);
      }
    }
  }

  /** When the pattern can match only at `q`, the scan reports at most one match, and none when it cannot match at `q`. */
  lemma FindAllAtMostOne(code: string, p: Pattern, q: nat)
    requires ValidPattern(p)
    requires forall s: nat :: IsMatchStart(code, s, p) ==> s == q
    ensures |FindAll(code, p, 0)| <= 1
    ensures !IsMatchStart(code, q, p) ==> FindAll(code, p, 0) == []
  {
    var r := FindAll(code, p, 0);
    FindAllSound(code, p, 0);
    FindAllAscending(code, p, 0);
    if |r| >= 2 {
      assert IsMatchStart(code, r[0].start, p) && IsMatchStart(code, r[1].start, p);
    }
    if r != [] {
      assert IsMatchStart(code, r[0].start, p);
    }
  }

  /** The starts of the reported matches, in order. */
  function Starts(ms: seq<Match>): (r: seq<nat>)
    ensures |r| == |ms|
    ensures forall k :: 0 <= k < |ms| ==> r[k] == ms[k].start
  {
    if ms == [] then [] else [ms[0].start] + Starts(ms[1..])
  }

  // ---------------------------------------------------------------------------
  // The catalog of patterns, in the order the checks use them.

  const FrameWidth := SpacedThen(".frame(width:", CaptureInt)     // \.frame\(width:\s*(\d+)\)
  const FrameHeight := SpacedThen(".frame(height:", CaptureInt)   // \.frame\(height:\s*(\d+)\)
  const ColorPatterns := [
    SpacedThen("Color(red:", NumberChars),                        // Color\(red:\s*[\d.]+
    SpacedThen("Color(.sRGB,", Lit("red:")),                      // Color\(\.sRGB,\s*red:
    SpacedThen("Color(hue:", NumberChars),                        // Color\(hue:\s*[\d.]+
    SpacedThen("UIColor(red:", NumberChars)                       // UIColor\(red:\s*[\d.]+
  ]
  const SystemFont := SpacedThen(".font(.system(size:", CaptureInt) // \.font\(\.system\(size:\s*(\d+)\)
  const ForceUnwrap := Bang                                         // (?<!try)!\s*(?![=])
  const ButtonCall := Exact("Button(")                              // Button\(

  /**
   The pattern `head\s*(\d+)\)` read as a regular expression: `head` at `i`,
   whitespace over `[i + |head|, j)`, at least one digit over `[j, k)`, and a
   `)` at `k`.
   */
  predicate CaptureIntShape(code: string, i: nat, head: string, j: nat, k: nat) {
    && OccursAt(code, head, i) && i + |head| <= j < k < |code|
    && (forall t | i + |head| <= t < j :: IsSpace(code[t]))
    && (forall t | j <= t < k :: IsDigit(code[t]))
    && code[k] == ')'
  }

  /**
   Whenever the regular expression can match at `i`, the matcher finds that
   match: it ends after the `)` and its group is the digits. So there is only
   one way for the pattern to match, which is why no backtracking is needed.
   */
  lemma CaptureIntMatchUnique(code: string, i: nat, head: string, j: nat, k: nat)
    requires head != [] && CaptureIntShape(code, i, head, j, k)
    ensures MatchAt(code, i, SpacedThen(head, CaptureInt)) == Some(Match(i, k + 1, code[j..k]))
  {
    assert !IsSpace(code[j]) && !IsDigit(code[k]);
  }

  /** A match the matcher finds is a match of the regular expression. */
  lemma CaptureIntMatchSound(code: string, i: nat, head: string)
    requires head != [] && MatchAt(code, i, SpacedThen(head, CaptureInt)).Some?
    ensures exists j: nat, k: nat :: CaptureIntShape(code, i, head, j, k)
              && MatchAt(code, i, SpacedThen(head, CaptureInt)) == Some(Match(i, k + 1, code[j..k]))
  {
    var j := SkipWhile(code, i + |head|, IsSpace);
    var k := SkipWhile(code, j, IsDigit);
    assert CaptureIntShape(code, i, head, j, k);
  }

  /**
   The pattern `head\s*[\d.]+` read as a regular expression: `head` at `i`,
   whitespace over `[i + |head|, j)` and at least one digit or `.` over `[j, k)`.
   */
  predicate NumberShape(code: string, i: nat, head: string, j: nat, k: nat) {
    && OccursAt(code, head, i) && i + |head| <= j < k <= |code|
    && (forall t | i + |head| <= t < j :: IsSpace(code[t]))
    && (forall t | j <= t < k :: IsNumberChar(code[t]))
  }

  /** The matcher matches `head\s*[\d.]+` at `i` exactly when the regular expression can. */
  lemma NumberMatchIff(code: string, i: nat, head: string)
    requires head != []
    ensures MatchAt(code, i, SpacedThen(head, NumberChars)).Some? <==> exists j: nat, k: nat :: NumberShape(code, i, head, j, k)
  {
    if MatchAt(code, i, SpacedThen(head, NumberChars)).Some? {
      var j := SkipWhile(code, i + |head|, IsSpace);
      var k := SkipWhile(code, j, IsNumberChar);
      assert NumberShape(code, i, head, j, k);
    }
    if j: nat, k: nat :| NumberShape(code, i, head, j, k) {
      NumberMatchUnique(code, i, head, j, SkipWhile(code, j, IsNumberChar));
    }
  }

  /**
   With the number run taken to its end, the matcher's match is that one: it
   ends where the run of digits and dots ends.
   */
  lemma NumberMatchUnique(code: string, i: nat, head: string, j: nat, k: nat)
    requires head != [] && NumberShape(code, i, head, j, k)
    requires k == |code| || !IsNumberChar(code[k])
    ensures MatchAt(code, i, SpacedThen(head, NumberChars)) == Some(Match(i, k, []))
  {
    assert !IsSpace(code[j]);
  }

  /**
   The pattern `head\s*t` read as a regular expression: `head` at `i`,
   whitespace over `[i + |head|, j)`, then `t` at `j`.
   */
  predicate LitShape(code: string, i: nat, head: string, t: string, j: nat) {
    && OccursAt(code, head, i) && i + |head| <= j <= |code|
    && (forall s | i + |head| <= s < j :: IsSpace(code[s]))
    && OccursAt(code, t, j)
  }

  /**
   For a literal that does not start with whitespace, the matcher matches
   `head\s*t` at `i` exactly when the regular expression can, and its match
   ends after `t`.
   */
  lemma LitMatchIff(code: string, i: nat, head: string, t: string)
    requires head != [] && t != [] && !IsSpace(t[0])
    ensures MatchAt(code, i, SpacedThen(head, Lit(t))).Some? <==> exists j: nat :: LitShape(code, i, head, t, j)
  {
    if MatchAt(code, i, SpacedThen(head, Lit(t))).Some? {
      var j := SkipWhile(code, i + |head|, IsSpace);
      assert LitShape(code, i, head, t, j);
    }
    if j: nat :| LitShape(code, i, head, t, j) {
      LitMatchUnique(code, i, head, t, j);
    }
  }

  lemma LitMatchUnique(code: string, i: nat, head: string, t: string, j: nat)
    requires head != [] && t != [] && !IsSpace(t[0]) && LitShape(code, i, head, t, j)
    ensures MatchAt(code, i, SpacedThen(head, Lit(t))) == Some(Match(i, j + |t|, []))
  {
    assert code[j] == code[j..j + |t|][0] == t[0];
  }

  /** A force-unwrap match starts exactly at a `!` that is not preceded by `try` and not directly followed by `=`. */
  predicate IsUnwrapSite(code: string, i: nat) {
    i < |code| && code[i] == '!' && !PrecededByTry(code, i) && !(i + 1 < |code| && code[i + 1] == '=')
  }

  lemma UnwrapMatchIff(code: string, i: nat)
    ensures MatchAt(code, i, ForceUnwrap).Some? <==> IsUnwrapSite(code, i)
  {
    if IsUnwrapSite(code, i) {
      var j := SkipWhile(code, i + 1, IsSpace);
      if j < |code| && code[j] == '=' && j == i + 1 {
        assert false;
      }
    }
  }

  /** Every force-unwrap site is reported: a match never contains another `!`. */
  lemma AllUnwrapSitesFound(code: string, q: nat)
    requires IsUnwrapSite(code, q)
    ensures q in Starts(FindAll(code, ForceUnwrap, 0))
  {
    UnwrapMatchIff(code, q);
    FindAllComplete(code, ForceUnwrap, 0, q);
    FindAllSound(code, ForceUnwrap, 0);
    var r := FindAll(code, ForceUnwrap, 0);
    var k :| 0 <= k < |r| && r[k].start <= q < r[k].end;
    UnwrapNoOverlap(code, r[k], q);
    assert Starts(r)[k] == q;
  }

  /** A force-unwrap match holds one `!` followed by whitespace only. */
  lemma UnwrapNoOverlap(code: string, m: Match, q: nat)
    requires MatchAt(code, m.start, ForceUnwrap) == Some(m)
    requires m.start <= q < m.end && q < |code| && code[q] == '!'
    ensures m.start == q
  {
  }

  /** Every occurrence of `Button(` is reported: the literal cannot overlap itself. */
  lemma AllButtonsFound(code: string, q: nat)
    requires OccursAt(code, "Button(", q)
    ensures q in Starts(FindAll(code, ButtonCall, 0))
  {
    FindAllComplete(code, ButtonCall, 0, q);
    FindAllSound(code, ButtonCall, 0);
    var r := FindAll(code, ButtonCall, 0);
    var k :| 0 <= k < |r| && r[k].start <= q < r[k].end;
    ButtonNoOverlap(code, r[k].start, q);
    assert Starts(r)[k] == q;
  }

  lemma ButtonNoOverlap(code: string, s: nat, q: nat)
    requires OccursAt(code, "Button(", s) && OccursAt(code, "Button(", q)
    requires s <= q < s + 7
    ensures s == q
  {
    assert code[q] == 'B';
    assert code[q] == code[s..s + 7][q - s];
  }

  // ---------------------------------------------------------------------------
  // The two patterns the analyzer only searches for (Python's `re.search`).

  /** `class\s+\w+ViewModel` matches at `i`. */
  predicate ViewModelClassAt(code: string, i: nat) {
    OccursAt(code, "class", i) &&
    var j := SkipWhile(code, i + 5, IsSpace);
    j > i + 5 &&
    exists k | j < k <= |code| :: OccursAt(code, "ViewModel", k) && forall t | j <= t < k :: IsWordChar(code[t])
  }

  /** `enum\s+State\s*\{` matches at `i`. */
  predicate StateEnumAt(code: string, i: nat) {
    OccursAt(code, "enum", i) &&
    var j := SkipWhile(code, i + 4, IsSpace);
    j > i + 4 && OccursAt(code, "State", j) &&
    var k := SkipWhile(code, j + 5, IsSpace);
    k < |code| && code[k] == '{'
  }

  /**
   The pattern `class\s+\w+ViewModel` read as a regular expression: `class`
   at `i`, at least one whitespace character over `[i + 5, j)`, at least one
   word character over `[j, k)`, and `ViewModel` at `k`.
   */
  predicate ViewModelShape(code: string, i: nat, j: nat, k: nat) {
    && OccursAt(code, "class", i) && i + 5 < j < k <= |code|
    && (forall t | i + 5 <= t < j :: IsSpace(code[t]))
    && (forall t | j <= t < k :: IsWordChar(code[t]))
    && OccursAt(code, "ViewModel", k)
  }

  /** The matcher's test at `i` holds exactly when `class\s+\w+ViewModel` can match there. */
  lemma ViewModelClassIff(code: string, i: nat)
    ensures ViewModelClassAt(code, i) <==> exists j: nat, k: nat :: ViewModelShape(code, i, j, k)
  {
    if ViewModelClassAt(code, i) {
      var j := SkipWhile(code, i + 5, IsSpace);
      var k :| j < k <= |code| && OccursAt(code, "ViewModel", k) && forall t | j <= t < k :: IsWordChar(code[t]);
      assert ViewModelShape(code, i, j, k);
    }
    if j: nat, k: nat :| ViewModelShape(code, i, j, k) {
      assert IsWordChar(code[j]) && !IsSpace(code[j]);
      assert SkipWhile(code, i + 5, IsSpace) == j;
    }
  }

  /**
   The pattern `enum\s+State\s*\{` read as a regular expression: `enum` at
   `i`, at least one whitespace character over `[i + 4, j)`, `State` at `j`,
   whitespace over `[j + 5, k)`, and `{` at `k`.
   */
  predicate StateEnumShape(code: string, i: nat, j: nat, k: nat) {
    && OccursAt(code, "enum", i) && i + 4 < j && j + 5 <= k < |code|
    && (forall t | i + 4 <= t < j :: IsSpace(code[t]))
    && OccursAt(code, "State", j)
    && (forall t | j + 5 <= t < k :: IsSpace(code[t]))
    && code[k] == '{'
  }

  /** The matcher's test at `i` holds exactly when `enum\s+State\s*\{` can match there. */
  lemma StateEnumIff(code: string, i: nat)
    ensures StateEnumAt(code, i) <==> exists j: nat, k: nat :: StateEnumShape(code, i, j, k)
  {
    if StateEnumAt(code, i) {
      var j := SkipWhile(code, i + 4, IsSpace);
      var k := SkipWhile(code, j + 5, IsSpace);
      assert StateEnumShape(code, i, j, k);
    }
    if j: nat, k: nat :| StateEnumShape(code, i, j, k) {
      assert code[j] == code[j..j + 5][0] == 'S';
      assert SkipWhile(code, i + 4, IsSpace) == j;
      assert SkipWhile(code, j + 5, IsSpace) == k;
    }
  }

  /** `re.search(r'class\s+\w+ViewModel', code)` finds a match. */
  predicate HasViewModelClass(code: string) {
    exists i | 0 <= i <= |code| :: ViewModelClassAt(code, i)
  }

  /** `re.search(r'enum\s+State\s*\{', code)` finds a match. */
  predicate HasStateEnum(code: string) {
    exists i | 0 <= i <= |code| :: StateEnumAt(code, i)
  }

  /** `re.search` finds `class\s+\w+ViewModel` exactly when the regular expression matches somewhere. */
  lemma HasViewModelClassIff(code: string)
    ensures HasViewModelClass(code) <==> exists i: nat, j: nat, k: nat :: ViewModelShape(code, i, j, k)
  {
    if HasViewModelClass(code) {
      var i :| 0 <= i <= |code| && ViewModelClassAt(code, i);
      ViewModelClassIff(code, i);
    }
    if i: nat, j: nat, k: nat :| ViewModelShape(code, i, j, k) {
      ViewModelClassIff(code, i);
    }
  }

  /** `re.search` finds `enum\s+State\s*\{` exactly when the regular expression matches somewhere. */
  lemma HasStateEnumIff(code: string)
    ensures HasStateEnum(code) <==> exists i: nat, j: nat, k: nat :: StateEnumShape(code, i, j, k)
  {
    if HasStateEnum(code) {
      var i :| 0 <= i <= |code| && StateEnumAt(code, i);
      StateEnumIff(code, i);
    }
    if i: nat, j: nat, k: nat :| StateEnumShape(code, i, j, k) {
      StateEnumIff(code, i);
    }
  }
}

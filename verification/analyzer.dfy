/**
 `SwiftAnalyzer`: seven checks run in a fixed order over one string of Swift
 source, each appending its violations to one list.

 Each check is written as the source writes it, as a step that takes the
 list so far and returns it with the check's violations appended
 (`Check...`). Beside each stands a reference definition of what the check
 reports on its own (`...Findings`); each check's contract says it appends
 exactly its reference list, and `Analyze`'s that the analysis is the seven
 reference lists concatenated in check order.

 The touch-target pattern (lazy `.*?` and `[\s\S]*?` with backtracking) is
 not re-implemented: its matches are an input, `touchMatches`, standing for
 what `re.finditer` returns for it.
 */
module Analyzer {
  import opened Text
  import opened Patterns
  import opened Violations
  import opened Braces

  // ---------------------------------------------------------------------------
  // What each check reports for one match.

  const FrameAdvice := "pt. Consider using minWidth/minHeight or semantic tokens."
  const ColorMessage := "Hardcoded RGB/HSB color. Use semantic colors (e.g., .primary, .systemBackground) or Asset Catalog colors."
  const FontPrefix := "Hardcoded font size: "
  const FontAdvice := "pt. Use semantic text styles (e.g., .body, .headline) for Dynamic Type support."
  const UnwrapMessage := "Force unwrapping (!) can cause crashes. Use optional binding (if let, guard let) or nil coalescing (??) instead."
  const TouchPrefix := "Touch target size is "
  const TouchAdvice := "pt, which is below the minimum 44pt. Use .frame(minWidth: 44, minHeight: 44) or add .contentShape(Rectangle())."
  const ViewModelMessage := "ViewModel should expose a State enum (e.g., idle, loading, content, error) for state management."
  const AccessibilityMessage := "Image-only button should have .accessibilityLabel() for VoiceOver support."

  const WidthDescription := "Hardcoded frame width"
  const HeightDescription := "Hardcoded frame height"

  /** The smallest touch target, in points, that is not reported. */
  const MinTouchTarget: nat := 44

  function FrameEmit(code: string, description: string): (r: Match -> Option<Violation>) {
    (m: Match) => Some(Violation(Warning, HardcodedFrameSize, description + ": " + m.group + FrameAdvice, Some(LineNumber(code, m.start))))
  }

  function ColorEmit(code: string): (r: Match -> Option<Violation>) {
    (m: Match) => Some(Violation(Warning, HardcodedColor, ColorMessage, Some(LineNumber(code, m.start))))
  }

  function FontEmit(code: string): (r: Match -> Option<Violation>) {
    (m: Match) => Some(Violation(Warning, HardcodedFontSize, FontPrefix + m.group + FontAdvice, Some(LineNumber(code, m.start))))
  }

  /**
   The source's comment test for a match at `s`: take the line holding `s`,
   find the first `//` in it, and skip the match when that `//` starts
   before the match's column. That is the case exactly when a `//` starts
   before `s` on its line.
   */
  predicate InComment(code: string, s: nat) {
    var c := CommentColumn(code, s);
    c != -1 && c < s - LineStart(code, s)
  }

  /** Within the text, the source's comment test holds exactly when a `//` starts before `s` on its line. */
  lemma InCommentIff(code: string, s: nat)
    ensures s <= |code| ==> (InComment(code, s) <==> CommentBefore(code, s))
  {
    if s <= |code| {
      CommentSkipIff(code, s);
    }
  }

  /** `line.find('//')` on the line holding offset `s`. */
  function CommentColumn(code: string, s: nat): (r: int) {
    FindFrom(LineText(code, s), "//", 0)
  }

  /**
   `code.rfind('\n', 0, s) + 1`: where the line holding offset `s` starts,
   just after the last newline before `s`.
   */
  function LineStart(code: string, s: nat): (r: nat)
    ensures r <= s && r <= |code|
    ensures r > 0 ==> code[r - 1] == '\n'
    ensures forall j | r <= j < Min(s, |code|) :: code[j] != '\n'
  {
    RFindChar(code, '\n', s) + 1
  }

  /**
   The text of the line holding offset `s`, cut as the source cuts it: from
   the line's start up to, not including, the next newline or the end. It
   holds no newline and, for `s` inside the text, reaches at least to `s`.
   */
  function LineText(code: string, s: nat): (r: string)
    ensures LineStart(code, s) + |r| <= |code|
    ensures r == code[LineStart(code, s)..LineStart(code, s) + |r|]
    ensures LineStart(code, s) + |r| < |code| ==> code[LineStart(code, s) + |r|] == '\n'
    ensures forall t | 0 <= t < |r| :: r[t] != '\n'
    ensures s <= |code| ==> s <= LineStart(code, s) + |r|
  {
    var lo := LineStart(code, s);
    var lineEnd := FindFrom(code, "\n", s);
    if lineEnd != -1 then
      assert code[lineEnd] == code[lineEnd..lineEnd + 1][0];
      assert forall j | s <= j < lineEnd :: code[j] != '\n' by {
        forall j | s <= j < lineEnd ensures code[j] != '\n' {
          assert !OccursAt(code, "\n", j);
          assert code[j..j + 1] == [code[j]];
        }
      }
      Slice(code, lo, lineEnd)
    else
      assert forall j | s <= j < |code| :: code[j] != '\n' by {
        forall j | s <= j < |code| ensures code[j] != '\n' {
          assert !OccursAt(code, "\n", j);
          assert code[j..j + 1] == [code[j]];
        }
      }
      Slice(code, lo, |code|)
  }

  function UnwrapEmit(code: string): (r: Match -> Option<Violation>) {
    (m: Match) => if InComment(code, m.start) then None
         else Some(Violation(Error, ForceUnwrapping, UnwrapMessage, Some(LineNumber(code, m.start))))
  }

  function TouchEmit(code: string): (r: Match -> Option<Violation>)
    ensures forall m: Match :: r(m).Some? <==> DigitsValue(m.group) < MinTouchTarget
    ensures forall m: Match :: r(m).Some? ==> r(m).value.severity == Error && r(m).value.line == Some(LineNumber(code, m.start))
  {
    (m: Match) => var size := DigitsValue(m.group);
         if size < MinTouchTarget then
           Some(Violation(Error, TouchTargetTooSmall, TouchPrefix + DecimalString(size) + TouchAdvice, Some(LineNumber(code, m.start))))
         else None
  }

  /** The accessibility test on the snippet that starts at a `Button(`. */
  predicate MissingLabel(code: string, start: nat) {
    var snippet := Snippet(code, start);
    Contains(snippet, "Image(") && !Contains(snippet, ".accessibilityLabel")
  }

  /**
   Read on the text itself: a `Button(` at `start` is flagged exactly when an
   `Image(` lies within its snippet window `[start, SnippetEnd)` and no
   `.accessibilityLabel` does.
   */
  lemma MissingLabelInText(code: string, start: nat)
    ensures start <= |code| ==>
      (MissingLabel(code, start) <==>
        && (exists p: nat :: start <= p && p + 6 <= SnippetEnd(code, start) && OccursAt(code, "Image(", p))
        && !(exists p: nat :: start <= p && p + 19 <= SnippetEnd(code, start) && OccursAt(code, ".accessibilityLabel", p)))
  {
    if start <= |code| {
      ContainsInSlice(code, start, SnippetEnd(code, start), "Image(");
      ContainsInSlice(code, start, SnippetEnd(code, start), ".accessibilityLabel");
    }
  }

  function AccessibilityEmit(code: string): (r: Match -> Option<Violation>) {
    (m: Match) => if MissingLabel(code, m.start)
         then Some(Violation(Warning, MissingAccessibilityLabel, AccessibilityMessage, Some(LineNumber(code, m.start))))
         else None
  }

  // ---------------------------------------------------------------------------
  // The seven checks, each appending to the list so far.

  /** `re.finditer(pattern, code)` for each pattern of `ps`, in list order. */
  function MatchesOf(code: string, ps: seq<Pattern>): (r: seq<seq<Match>>)
    requires forall k :: 0 <= k < |ps| ==> ValidPattern(ps[k])
    ensures |r| == |ps|
    ensures forall k :: 0 <= k < |ps| ==> r[k] == FindAll(code, ps[k], 0)
    decreases |ps|
  {
    if ps == [] then [] else [FindAll(code, ps[0], 0)] + MatchesOf(code, ps[1..])
  }

  function ColorMatches(code: string): (r: seq<seq<Match>>) {
    MatchesOf(code, ColorPatterns)
  }

  /**
   `check_hardcoded_frame_sizes`: every width match, then every height match,
   appended to the list so far; that is exactly the frame findings.
   */
  function CheckHardcodedFrameSizes(vs: seq<Violation>, code: string): (r: seq<Violation>)
    ensures r == vs + FrameFindings(code)
  {
    ReportTwice(vs, WidthMatches(code), FrameEmit(code, WidthDescription), HeightMatches(code), FrameEmit(code, HeightDescription));
    var afterWidth := ReportMatches(vs, FindAll(code, FrameWidth, 0), FrameEmit(code, WidthDescription));
    ReportMatches(afterWidth, FindAll(code, FrameHeight, 0), FrameEmit(code, HeightDescription))
  }

  /** `check_hardcoded_colors`: each colour pattern's matches in turn; exactly the colour findings. */
  function CheckHardcodedColors(vs: seq<Violation>, code: string): (r: seq<Violation>)
    ensures r == vs + ColorFindings(code)
  {
    ReportAllIsEmitted(vs, ColorMatches(code), ColorEmit(code));
    ReportAll(vs, ColorMatches(code), ColorEmit(code))
  }

  /** `check_hardcoded_fonts`: exactly the font findings. */
  function CheckHardcodedFonts(vs: seq<Violation>, code: string): (r: seq<Violation>)
    ensures r == vs + FontFindings(code)
  {
    ReportMatchesIsEmitted(vs, FindAll(code, SystemFont, 0), FontEmit(code));
    ReportMatches(vs, FindAll(code, SystemFont, 0), FontEmit(code))
  }

  /** `check_force_unwrapping`: exactly the force-unwrap findings. */
  function CheckForceUnwrapping(vs: seq<Violation>, code: string): (r: seq<Violation>)
    ensures r == vs + UnwrapFindings(code)
  {
    ReportMatchesIsEmitted(vs, FindAll(code, ForceUnwrap, 0), UnwrapEmit(code));
    ReportMatches(vs, FindAll(code, ForceUnwrap, 0), UnwrapEmit(code))
  }

  /** `check_touch_target_sizes`: exactly the touch-target findings. */
  function CheckTouchTargetSizes(vs: seq<Violation>, code: string, touchMatches: seq<Match>): (r: seq<Violation>)
    ensures r == vs + TouchFindings(code, touchMatches)
  {
    ReportMatchesIsEmitted(vs, touchMatches, TouchEmit(code));
    ReportMatches(vs, touchMatches, TouchEmit(code))
  }

  /**
   `check_viewmodel_state_enum`: without a `class ...ViewModel` nothing is
   added; with one, at most one warning without a line is added, exactly
   when no `enum State {` occurs. Earlier entries are left alone.
   */
  function CheckViewModelStateEnum(vs: seq<Violation>, code: string): (r: seq<Violation>)
    ensures !HasViewModelClass(code) ==> r == vs
    ensures |vs| <= |r| <= |vs| + 1
    ensures r[..|vs|] == vs
    ensures |r| == |vs| + 1 <==> HasViewModelClass(code) && !HasStateEnum(code)
    ensures |r| == |vs| + 1 ==> r[|vs|].severity == Warning && r[|vs|].rule == MissingViewModelState && r[|vs|].line.None?
    ensures r == vs + ViewModelFindings(code)
  {
    if !HasViewModelClass(code) then vs
    else if !HasStateEnum(code) then AddViolation(vs, Warning, MissingViewModelState, ViewModelMessage, None)
    else vs
  }

  /** `check_accessibility_labels`: exactly the accessibility findings. */
  function CheckAccessibilityLabels(vs: seq<Violation>, code: string): (r: seq<Violation>)
    ensures r == vs + AccessibilityFindings(code)
  {
    ReportMatchesIsEmitted(vs, FindAll(code, ButtonCall, 0), AccessibilityEmit(code));
    ReportMatches(vs, FindAll(code, ButtonCall, 0), AccessibilityEmit(code))
  }

  /**
   `SwiftAnalyzer(code).analyze()`: the seven checks, in order, from an empty
   list. The result lists the violations check by check in that fixed
   order, each check's violations in the order that check found them.
   */
  function Analyze(code: string, touchMatches: seq<Match>): (r: seq<Violation>)
    ensures r == FrameFindings(code) + ColorFindings(code) + FontFindings(code) + UnwrapFindings(code)
               + TouchFindings(code, touchMatches) + ViewModelFindings(code) + AccessibilityFindings(code)
  {
    var v0: seq<Violation> := [];
    assert v0 + FrameFindings(code) == FrameFindings(code);
    var v1 := CheckHardcodedFrameSizes(v0, code);
    var v2 := CheckHardcodedColors(v1, code);
    var v3 := CheckHardcodedFonts(v2, code);
    var v4 := CheckForceUnwrapping(v3, code);
    var v5 := CheckTouchTargetSizes(v4, code, touchMatches);
    var v6 := CheckViewModelStateEnum(v5, code);
    CheckAccessibilityLabels(v6, code)
  }

  // ---------------------------------------------------------------------------
  // Reference definitions: what each check reports on its own.

  function WidthMatches(code: string): (r: seq<Match>) {
    FindAll(code, FrameWidth, 0)
  }

  function HeightMatches(code: string): (r: seq<Match>) {
    FindAll(code, FrameHeight, 0)
  }

  function FrameFindings(code: string): (r: seq<Violation>) {
    Emitted(WidthMatches(code), FrameEmit(code, WidthDescription)) + Emitted(HeightMatches(code), FrameEmit(code, HeightDescription))
  }

  function ColorFindings(code: string): (r: seq<Violation>) {
    EmittedAll(ColorMatches(code), ColorEmit(code))
  }

  function FontFindings(code: string): (r: seq<Violation>) {
    Emitted(FindAll(code, SystemFont, 0), FontEmit(code))
  }

  function UnwrapFindings(code: string): (r: seq<Violation>) {
    Emitted(FindAll(code, ForceUnwrap, 0), UnwrapEmit(code))
  }

  function TouchFindings(code: string, touchMatches: seq<Match>): (r: seq<Violation>) {
    Emitted(touchMatches, TouchEmit(code))
  }

  function ViewModelFindings(code: string): (r: seq<Violation>) {
    if HasViewModelClass(code) && !HasStateEnum(code)
    then [Violation(Warning, MissingViewModelState, ViewModelMessage, None)]
    else []
  }

  function AccessibilityFindings(code: string): (r: seq<Violation>) {
    Emitted(FindAll(code, ButtonCall, 0), AccessibilityEmit(code))
  }

  // ---------------------------------------------------------------------------
  // One finding per match.

  /** A check that reports every match gives one violation per match, in match order. */
  lemma {:induction false} EmittedEveryMatch(ms: seq<Match>, emit: Match -> Option<Violation>)
    requires forall k :: 0 <= k < |ms| ==> emit(ms[k]).Some?
    ensures |Emitted(ms, emit)| == |ms|
    ensures forall k :: 0 <= k < |ms| ==> Emitted(ms, emit)[k] == emit(ms[k]).value
  {
    if ms != [] {
      var init := ms[..|ms| - 1];
      assert forall k :: 0 <= k < |init| ==> init[k] == ms[k];
      EmittedEveryMatch(init, emit);
    }
  }

  /**
   The frame check reports every width match, then every height match, one
   warning each, on the line where the match starts and naming the digits;
   within each pattern the lines never decrease.
   */
  lemma FrameFindingsPerMatch(code: string)
    ensures var w := WidthMatches(code);
      var h := HeightMatches(code);
      var r := FrameFindings(code);
      && |r| == |w| + |h|
      && (forall k :: 0 <= k < |w| ==>
            r[k].severity == Warning && r[k].rule == HardcodedFrameSize
            && r[k].line == Some(LineNumber(code, w[k].start))
            && r[k].message == WidthDescription + ": " + w[k].group + FrameAdvice)
      && (forall k :: 0 <= k < |h| ==>
            r[|w| + k].severity == Warning && r[|w| + k].rule == HardcodedFrameSize
            && r[|w| + k].line == Some(LineNumber(code, h[k].start))
            && r[|w| + k].message == HeightDescription + ": " + h[k].group + FrameAdvice)
      && LinesNonDecreasing(r[..|w|]) && LinesNonDecreasing(r[|w|..])
  {
    var w := WidthMatches(code);
    var h := HeightMatches(code);
    var ew := FrameEmit(code, WidthDescription);
    var eh := FrameEmit(code, HeightDescription);
    EmittedEveryMatch(w, ew);
    EmittedEveryMatch(h, eh);
    FindAllAscending(code, FrameWidth, 0);
    FindAllAscending(code, FrameHeight, 0);
    EmittedLinesInOrder(code, w, ew);
    EmittedLinesInOrder(code, h, eh);
    var r := FrameFindings(code);
    assert r[..|w|] == Emitted(w, ew);
    assert r[|w|..] == Emitted(h, eh);
  }

  /**
   The font check reports every `.font(.system(size: N)` match, one warning
   each, on the match's line and naming its digits, in line order.
   */
  lemma FontFindingsPerMatch(code: string)
    ensures var ms := FindAll(code, SystemFont, 0);
      var r := FontFindings(code);
      && |r| == |ms|
      && (forall k :: 0 <= k < |ms| ==>
            r[k] == Violation(Warning, HardcodedFontSize, FontPrefix + ms[k].group + FontAdvice, Some(LineNumber(code, ms[k].start))))
      && LinesNonDecreasing(r)
  {
    var ms := FindAll(code, SystemFont, 0);
    EmittedEveryMatch(ms, FontEmit(code));
    FindAllAscending(code, SystemFont, 0);
    EmittedLinesInOrder(code, ms, FontEmit(code));
  }

  /** The warnings the colour check reports for pattern `k` of its list. */
  function ColorBlock(code: string, k: nat): (r: seq<Violation>)
    requires k < |ColorPatterns|
  {
    Emitted(FindAll(code, ColorPatterns[k], 0), ColorEmit(code))
  }

  /** The colour findings are pattern 0's warnings, then pattern 1's, 2's and 3's. */
  lemma ColorFindingsByPattern(code: string)
    ensures ColorFindings(code) == ColorBlock(code, 0) + ColorBlock(code, 1) + ColorBlock(code, 2) + ColorBlock(code, 3)
  {
    EmittedAllFour(ColorMatches(code), ColorEmit(code));
  }

  /**
   Within the colour check, pattern `k` contributes one warning per match of
   that pattern, on the line where the match starts, in line order.
   */
  lemma ColorFindingsPerMatch(code: string, k: nat)
    requires k < |ColorPatterns|
    ensures var ms := FindAll(code, ColorPatterns[k], 0);
      var r := ColorBlock(code, k);
      && |r| == |ms|
      && (forall i :: 0 <= i < |ms| ==> r[i] == Violation(Warning, HardcodedColor, ColorMessage, Some(LineNumber(code, ms[i].start))))
      && LinesNonDecreasing(r)
  {
    var ms := FindAll(code, ColorPatterns[k], 0);
    EmittedEveryMatch(ms, ColorEmit(code));
    FindAllAscending(code, ColorPatterns[k], 0);
    EmittedLinesInOrder(code, ms, ColorEmit(code));
  }

  lemma UIColorMatchesTwice(code: string)
    requires code == "UI" + "Color(red:" + " 1"
    ensures IsMatchStart(code, 2, ColorPatterns[0])
    ensures IsMatchStart(code, 0, ColorPatterns[3])
  {
    assert code[2..12] == "Color(red:";
    assert code[0..12] == "UIColor(red:";
    assert IsSpace(code[12]) && !IsSpace(code[13]);
    assert SkipWhile(code, 12, IsSpace) == 13;
    assert SkipWhile(code, 13, IsNumberChar) == 14;
  }

  /** In `UIColor(red: 1` the only `C` is two characters in and the only `U` is at the start. */
  lemma UIColorLetters(code: string, s: nat)
    requires code == "UI" + "Color(red:" + " 1"
    requires s < |code|
    ensures code[s] == 'C' ==> s == 2
    ensures code[s] == 'U' ==> s == 0
  {
    if s == 1 {
      assert code[s] == 'I';
    } else if s >= 3 {
      assert code[3..] == "olor(red: 1";
      assert code[s] == code[3..][s - 3];
    }
  }

  /** In `UIColor(red: 1` pattern 0 can match only two characters in, pattern 3 only at the start, and patterns 1 and 2 nowhere. */
  lemma UIColorPatternStarts(code: string)
    requires code == "UI" + "Color(red:" + " 1"
    ensures forall s: nat :: IsMatchStart(code, s, ColorPatterns[0]) ==> s == 2
    ensures forall s: nat :: !IsMatchStart(code, s, ColorPatterns[1])
    ensures forall s: nat :: !IsMatchStart(code, s, ColorPatterns[2])
    ensures forall s: nat :: IsMatchStart(code, s, ColorPatterns[3]) ==> s == 0
  {
    forall s: nat | IsMatchStart(code, s, ColorPatterns[0])
      ensures s == 2
    {
      assert code[s] == code[s..s + 10][0] == 'C';
      UIColorLetters(code, s);
    }
    forall s: nat | IsMatchStart(code, s, ColorPatterns[1])
      ensures false
    {
    }
    forall s: nat | IsMatchStart(code, s, ColorPatterns[2])
      ensures false
    {
      assert code[s] == code[s..s + 10][0] == 'C';
      UIColorLetters(code, s);
    }
    forall s: nat | IsMatchStart(code, s, ColorPatterns[3])
      ensures s == 0
    {
      assert code[s] == code[s..s + 12][0] == 'U';
      UIColorLetters(code, s);
    }
  }

  /**
   The colour patterns overlap: `UIColor(red: 1` holds a match of
   `Color\(red:` two characters in, as well as its own match of
   `UIColor\(red:`, so this single colour literal is reported exactly twice.
   */
  lemma UIColorReportedTwice()
    ensures |ColorFindings("UIColor(red: 1")| == 2
  {
    var code := "UI" + "Color(red:" + " 1";
    assert code == "UIColor(red: 1";
    UIColorMatchesTwice(code);
    UIColorPatternStarts(code);
    ColorFindingsByPattern(code);
    ColorFindingsPerMatch(code, 0);
    ColorFindingsPerMatch(code, 1);
    ColorFindingsPerMatch(code, 2);
    ColorFindingsPerMatch(code, 3);
    FindAllAtMostOne(code, ColorPatterns[0], 2);
    FindAllAtMostOne(code, ColorPatterns[1], 0);
    FindAllAtMostOne(code, ColorPatterns[2], 0);
    FindAllAtMostOne(code, ColorPatterns[3], 0);
    FindAllComplete(code, ColorPatterns[0], 0, 2);
    FindAllComplete(code, ColorPatterns[3], 0, 0);
  }

  // ---------------------------------------------------------------------------
  // Severity.

  lemma FrameSeverities(code: string)
    ensures SeveritiesFixed(FrameFindings(code))
  {
    EmittedRule(WidthMatches(code), FrameEmit(code, WidthDescription), HardcodedFrameSize);
    EmittedRule(HeightMatches(code), FrameEmit(code, HeightDescription), HardcodedFrameSize);
    SeveritiesFixedAppend(Emitted(WidthMatches(code), FrameEmit(code, WidthDescription)),
                          Emitted(HeightMatches(code), FrameEmit(code, HeightDescription)));
  }

  lemma ColorSeverities(code: string)
    ensures SeveritiesFixed(ColorFindings(code))
  {
    var c := ColorFindings(code);
    EmittedAllRule(ColorMatches(code), ColorEmit(code), HardcodedColor);
    forall i | 0 <= i < |c|
      ensures c[i].severity == RuleSeverity(c[i].rule)
    {
      assert c[i] in c;
    }
  }

  lemma FontSeverities(code: string)
    ensures SeveritiesFixed(FontFindings(code))
  {
    EmittedRule(FindAll(code, SystemFont, 0), FontEmit(code), HardcodedFontSize);
  }

  lemma UnwrapSeverities(code: string)
    ensures SeveritiesFixed(UnwrapFindings(code))
  {
    EmittedRule(FindAll(code, ForceUnwrap, 0), UnwrapEmit(code), ForceUnwrapping);
  }

  lemma TouchSeverities(code: string, touchMatches: seq<Match>)
    ensures SeveritiesFixed(TouchFindings(code, touchMatches))
  {
    EmittedRule(touchMatches, TouchEmit(code), TouchTargetTooSmall);
  }

  lemma ViewModelSeverities(code: string)
    ensures SeveritiesFixed(ViewModelFindings(code))
  {
  }

  lemma AccessibilitySeverities(code: string)
    ensures SeveritiesFixed(AccessibilityFindings(code))
  {
    EmittedRule(FindAll(code, ButtonCall, 0), AccessibilityEmit(code), MissingAccessibilityLabel);
  }

  /** Every violation the analysis reports carries its rule's fixed severity. */
  lemma AnalyzeSeverities(code: string, touchMatches: seq<Match>)
    ensures SeveritiesFixed(Analyze(code, touchMatches))
  {
    FrameSeverities(code);
    ColorSeverities(code);
    FontSeverities(code);
    UnwrapSeverities(code);
    TouchSeverities(code, touchMatches);
    ViewModelSeverities(code);
    AccessibilitySeverities(code);
    SeveritiesFixedSeven(FrameFindings(code), ColorFindings(code), FontFindings(code), UnwrapFindings(code),
                         TouchFindings(code, touchMatches), ViewModelFindings(code), AccessibilityFindings(code));
  }

  // ---------------------------------------------------------------------------
  // Force unwrapping: the comment skip.

  /** A `//` starts before offset `s` on the same line as `s`. */
  predicate CommentBefore(code: string, s: nat)
    requires s <= |code|
  {
    exists c | 0 <= c < s :: OccursAt(code, "//", c) && forall j | c <= j < s :: code[j] != '\n'
  }

  /** When the source skips a `!` there is a `//` before it on its line. */
  lemma CommentSkipSound(code: string, s: nat)
    requires s <= |code|
    requires CommentColumn(code, s) != -1 && CommentColumn(code, s) < s - LineStart(code, s)
    ensures CommentBefore(code, s)
  {
    var lineStart := LineStart(code, s);
    var line := LineText(code, s);
    var c := CommentColumn(code, s);
    var cc := lineStart + c;
    assert line[c..c + 2] == "//";
    assert code[cc] == line[c] == line[c..c + 2][0];
    assert code[cc + 1] == line[c + 1] == line[c..c + 2][1];
    assert code[cc..cc + 2] == "//";
    assert OccursAt(code, "//", cc);
  }

  /** When a `//` precedes a `!` on its line the source skips it. */
  lemma CommentSkipComplete(code: string, s: nat)
    requires s <= |code| && CommentBefore(code, s)
    ensures CommentColumn(code, s) != -1 && CommentColumn(code, s) < s - LineStart(code, s)
  {
    var lineStart := LineStart(code, s);
    var line := LineText(code, s);
    var hi := lineStart + |line|;
    var cc :| 0 <= cc < s && OccursAt(code, "//", cc) && forall j | cc <= j < s :: code[j] != '\n';
    assert lineStart <= cc;
    assert code[cc..cc + 2] == "//";
    assert code[cc] == code[cc..cc + 2][0];
    assert code[cc + 1] == code[cc..cc + 2][1];
    assert cc + 1 < hi;
    var c0 := cc - lineStart;
    assert line[c0] == '/' && line[c0 + 1] == '/';
    assert line[c0..c0 + 2] == "//";
    assert OccursAt(line, "//", c0);
  }

  /** The source's line-slicing test finds a `//` before the match exactly when one precedes it on its line. */
  lemma CommentSkipIff(code: string, s: nat)
    requires s <= |code|
    ensures (CommentColumn(code, s) != -1 && CommentColumn(code, s) < s - LineStart(code, s)) <==> CommentBefore(code, s)
  {
    if CommentColumn(code, s) != -1 && CommentColumn(code, s) < s - LineStart(code, s) {
      CommentSkipSound(code, s);
    }
    if CommentBefore(code, s) {
      CommentSkipComplete(code, s);
    }
  }

  /** Every `!` that is not preceded by `try`, not followed by `=` and not after a `//` on its line is reported as a force-unwrap error on its line. */
  lemma UnwrapFindingsComplete(code: string, q: nat)
    requires IsUnwrapSite(code, q) && !CommentBefore(code, q)
    ensures Violation(Error, ForceUnwrapping, UnwrapMessage, Some(LineNumber(code, q))) in UnwrapFindings(code)
  {
    var ms := FindAll(code, ForceUnwrap, 0);
    FindAllSound(code, ForceUnwrap, 0);
    AllUnwrapSitesFound(code, q);
    var k :| 0 <= k < |ms| && Starts(ms)[k] == q;
    InCommentIff(code, q);
    assert UnwrapEmit(code)(ms[k]).Some?;
    EmittedComplete(ms, UnwrapEmit(code), k);
  }

  /** The offsets of the `!` the force-unwrap check reports: not after `try`, not before `=`, not after `//` on the line. */
  function UnwrapSites(code: string): (r: set<nat>) {
    set q: nat | q < |code| && IsUnwrapSite(code, q) && !CommentBefore(code, q)
  }

  /** The check reports exactly one error per such `!`: as many errors as there are sites. */
  lemma UnwrapOnePerSite(code: string)
    ensures |UnwrapFindings(code)| == |UnwrapSites(code)|
  {
    var ms := FindAll(code, ForceUnwrap, 0);
    var emit := UnwrapEmit(code);
    FindAllAscending(code, ForceUnwrap, 0);
    FindAllSound(code, ForceUnwrap, 0);
    EmittedCount(ms, emit);
    forall q | q in UnwrapSites(code)
      ensures q in FlaggedStarts(ms, emit)
    {
      UnwrapSiteFlagged(code, q);
    }
    forall q | q in FlaggedStarts(ms, emit)
      ensures q in UnwrapSites(code)
    {
      FlaggedUnwrapSite(code, q);
    }
    assert FlaggedStarts(ms, emit) == UnwrapSites(code);
  }

  lemma UnwrapSiteFlagged(code: string, q: nat)
    requires q in UnwrapSites(code)
    ensures q in FlaggedStarts(FindAll(code, ForceUnwrap, 0), UnwrapEmit(code))
  {
    var ms := FindAll(code, ForceUnwrap, 0);
    FindAllSound(code, ForceUnwrap, 0);
    AllUnwrapSitesFound(code, q);
    var k :| 0 <= k < |ms| && Starts(ms)[k] == q;
    InCommentIff(code, q);
    assert UnwrapEmit(code)(ms[k]).Some?;
  }

  lemma FlaggedUnwrapSite(code: string, q: nat)
    requires q in FlaggedStarts(FindAll(code, ForceUnwrap, 0), UnwrapEmit(code))
    ensures q in UnwrapSites(code)
  {
    var ms := FindAll(code, ForceUnwrap, 0);
    FindAllSound(code, ForceUnwrap, 0);
    var k :| 0 <= k < |ms| && UnwrapEmit(code)(ms[k]).Some? && ms[k].start == q;
    UnwrapEmitSome(code, ms[k]);
  }

  /** A force-unwrap match the check reports is a site outside a comment, reported on its line. */
  lemma UnwrapEmitSome(code: string, m: Match)
    requires MatchAt(code, m.start, ForceUnwrap) == Some(m)
    requires UnwrapEmit(code)(m).Some?
    ensures IsUnwrapSite(code, m.start) && !CommentBefore(code, m.start)
    ensures UnwrapEmit(code)(m).value == Violation(Error, ForceUnwrapping, UnwrapMessage, Some(LineNumber(code, m.start)))
  {
    UnwrapMatchIff(code, m.start);
    assert !InComment(code, m.start);
    InCommentIff(code, m.start);
  }

  /** Every force-unwrap violation is reported for such a `!`, on its line. */
  lemma UnwrapFindingsSound(code: string, v: Violation)
    requires v in UnwrapFindings(code)
    ensures exists q: nat :: IsUnwrapSite(code, q) && !CommentBefore(code, q)
              && v == Violation(Error, ForceUnwrapping, UnwrapMessage, Some(LineNumber(code, q)))
  {
    var ms := FindAll(code, ForceUnwrap, 0);
    var emit := UnwrapEmit(code);
    FindAllSound(code, ForceUnwrap, 0);
    EmittedSound(ms, emit, v);
    var k :| 0 <= k < |ms| && emit(ms[k]) == Some(v);
    UnwrapEmitSome(code, ms[k]);
  }

  // ---------------------------------------------------------------------------
  // Touch targets: the threshold.

  /** A touch-target match is reported, as an error on its line, exactly when its size is below 44. */
  lemma TouchTargetThreshold(code: string, m: Match)
    ensures TouchEmit(code)(m).Some? <==> DigitsValue(m.group) < MinTouchTarget
    ensures TouchEmit(code)(m).Some? ==>
      var v := TouchEmit(code)(m).value;
      v.severity == Error && v.rule == TouchTargetTooSmall && v.line == Some(LineNumber(code, m.start))
      && exists digits :: v.message == TouchPrefix + digits + TouchAdvice && DigitsValue(digits) == DigitsValue(m.group)
  {
    DecimalStringRoundTrip(DigitsValue(m.group));
  }

  /** Every match whose size is below 44 is reported as an error on its line, its size in the message. */
  lemma TouchFindingsComplete(code: string, touchMatches: seq<Match>, k: nat)
    requires k < |touchMatches| && DigitsValue(touchMatches[k].group) < MinTouchTarget
    ensures Violation(Error, TouchTargetTooSmall, TouchPrefix + DecimalString(DigitsValue(touchMatches[k].group)) + TouchAdvice,
                      Some(LineNumber(code, touchMatches[k].start))) in TouchFindings(code, touchMatches)
  {
    EmittedComplete(touchMatches, TouchEmit(code), k);
  }

  /** Every touch-target error comes from a match whose size is below 44, and sits on that match's line. */
  lemma TouchFindingsSound(code: string, touchMatches: seq<Match>, v: Violation)
    requires v in TouchFindings(code, touchMatches)
    ensures v.severity == Error && v.rule == TouchTargetTooSmall
    ensures exists k :: 0 <= k < |touchMatches| && DigitsValue(touchMatches[k].group) < MinTouchTarget
              && v.line == Some(LineNumber(code, touchMatches[k].start))
  {
    EmittedSound(touchMatches, TouchEmit(code), v);
    var k :| 0 <= k < |touchMatches| && TouchEmit(code)(touchMatches[k]) == Some(v);
    TouchTargetThreshold(code, touchMatches[k]);
  }

  /** When every size is at least 44 the touch-target check reports nothing. */
  lemma TouchFindingsEmptyWhenLarge(code: string, touchMatches: seq<Match>)
    requires forall k :: 0 <= k < |touchMatches| ==> DigitsValue(touchMatches[k].group) >= MinTouchTarget
    ensures TouchFindings(code, touchMatches) == []
  {
    var r := TouchFindings(code, touchMatches);
    if r != [] {
      TouchFindingsSound(code, touchMatches, r[0]);
    }
  }

  /** Matches taken left to right give touch-target errors in line order. */
  lemma TouchFindingsInLineOrder(code: string, touchMatches: seq<Match>)
    requires StartsAscending(touchMatches)
    ensures LinesNonDecreasing(TouchFindings(code, touchMatches))
  {
    EmittedLinesInOrder(code, touchMatches, TouchEmit(code));
  }

  // ---------------------------------------------------------------------------
  // Accessibility labels.

  /** Every `Button(` whose snippet holds `Image(` but no `.accessibilityLabel` gets a warning on its line. */
  lemma AccessibilityComplete(code: string, q: nat)
    requires OccursAt(code, "Button(", q) && MissingLabel(code, q)
    ensures Violation(Warning, MissingAccessibilityLabel, AccessibilityMessage, Some(LineNumber(code, q))) in AccessibilityFindings(code)
  {
    var ms := FindAll(code, ButtonCall, 0);
    FindAllSound(code, ButtonCall, 0);
    AllButtonsFound(code, q);
    var k :| 0 <= k < |ms| && Starts(ms)[k] == q;
    assert AccessibilityEmit(code)(ms[k]).Some?;
    EmittedComplete(ms, AccessibilityEmit(code), k);
  }

  /** The offsets of the `Button(` calls whose snippet holds `Image(` but no `.accessibilityLabel`. */
  function FlaggedButtons(code: string): (r: set<nat>) {
    set q: nat | q <= |code| && OccursAt(code, "Button(", q) && MissingLabel(code, q)
  }

  /** The check reports exactly one warning per such `Button(`: as many warnings as there are flagged calls. */
  lemma AccessibilityOnePerButton(code: string)
    ensures |AccessibilityFindings(code)| == |FlaggedButtons(code)|
  {
    var ms := FindAll(code, ButtonCall, 0);
    var emit := AccessibilityEmit(code);
    FindAllAscending(code, ButtonCall, 0);
    FindAllSound(code, ButtonCall, 0);
    EmittedCount(ms, emit);
    forall q | q in FlaggedButtons(code)
      ensures q in FlaggedStarts(ms, emit)
    {
      FlaggedButtonReported(code, q);
    }
    assert FlaggedStarts(ms, emit) == FlaggedButtons(code);
  }

  lemma FlaggedButtonReported(code: string, q: nat)
    requires q in FlaggedButtons(code)
    ensures q in FlaggedStarts(FindAll(code, ButtonCall, 0), AccessibilityEmit(code))
  {
    var ms := FindAll(code, ButtonCall, 0);
    FindAllSound(code, ButtonCall, 0);
    AllButtonsFound(code, q);
    var k :| 0 <= k < |ms| && Starts(ms)[k] == q;
    assert AccessibilityEmit(code)(ms[k]).Some?;
  }

  /** The check reports nothing else: each warning belongs to such a `Button(`, on its line. */
  lemma AccessibilitySound(code: string, v: Violation)
    requires v in AccessibilityFindings(code)
    ensures exists q: nat :: OccursAt(code, "Button(", q) && MissingLabel(code, q)
              && v == Violation(Warning, MissingAccessibilityLabel, AccessibilityMessage, Some(LineNumber(code, q)))
  {
    var ms := FindAll(code, ButtonCall, 0);
    var emit := AccessibilityEmit(code);
    FindAllSound(code, ButtonCall, 0);
    EmittedSound(ms, emit, v);
    var k :| 0 <= k < |ms| && emit(ms[k]) == Some(v);
    assert OccursAt(code, "Button(", ms[k].start);
  }

  // ---------------------------------------------------------------------------
  // Each rule belongs to one check.

  lemma FrameRule(code: string)
    ensures AllOfRule(FrameFindings(code), HardcodedFrameSize)
  {
    EmittedRule(WidthMatches(code), FrameEmit(code, WidthDescription), HardcodedFrameSize);
    EmittedRule(HeightMatches(code), FrameEmit(code, HeightDescription), HardcodedFrameSize);
  }

  lemma ColorRule(code: string)
    ensures AllOfRule(ColorFindings(code), HardcodedColor)
  {
    EmittedAllRule(ColorMatches(code), ColorEmit(code), HardcodedColor);
  }

  lemma RemainingRules(code: string, touchMatches: seq<Match>)
    ensures AllOfRule(FontFindings(code), HardcodedFontSize)
    ensures AllOfRule(UnwrapFindings(code), ForceUnwrapping)
    ensures AllOfRule(TouchFindings(code, touchMatches), TouchTargetTooSmall)
    ensures AllOfRule(ViewModelFindings(code), MissingViewModelState)
    ensures AllOfRule(AccessibilityFindings(code), MissingAccessibilityLabel)
  {
    EmittedRule(FindAll(code, SystemFont, 0), FontEmit(code), HardcodedFontSize);
    EmittedRule(FindAll(code, ForceUnwrap, 0), UnwrapEmit(code), ForceUnwrapping);
    EmittedRule(touchMatches, TouchEmit(code), TouchTargetTooSmall);
    EmittedRule(FindAll(code, ButtonCall, 0), AccessibilityEmit(code), MissingAccessibilityLabel);
  }

  /**
   Picking out the violations of one rule from the whole analysis gives
   exactly what that rule's check reports: no other check reports it.
   */
  lemma AnalyzeByRule(code: string, touchMatches: seq<Match>, rule: Rule)
    ensures OfRule(Analyze(code, touchMatches), rule)
         == PickByRule(FrameFindings(code), ColorFindings(code), FontFindings(code), UnwrapFindings(code),
                       TouchFindings(code, touchMatches), ViewModelFindings(code), AccessibilityFindings(code), rule)
  {
    FrameRule(code);
    ColorRule(code);
    RemainingRules(code, touchMatches);
    OfRuleByCheck(FrameFindings(code), ColorFindings(code), FontFindings(code), UnwrapFindings(code),
                  TouchFindings(code, touchMatches), ViewModelFindings(code), AccessibilityFindings(code), rule);
  }

  /**
   In the whole analysis the ViewModel rule shows up at most once, without a
   line, and exactly when a `class ...ViewModel` occurs but no `enum State {`.
   */
  lemma AnalyzeViewModelGate(code: string, touchMatches: seq<Match>)
    ensures |OfRule(Analyze(code, touchMatches), MissingViewModelState)| <= 1
    ensures OfRule(Analyze(code, touchMatches), MissingViewModelState) != [] <==> HasViewModelClass(code) && !HasStateEnum(code)
    ensures forall v :: v in OfRule(Analyze(code, touchMatches), MissingViewModelState) ==> v.severity == Warning && v.line.None?
  {
    FrameRule(code);
    ColorRule(code);
    RemainingRules(code, touchMatches);
    ViewModelRuleOfSeven(FrameFindings(code), ColorFindings(code), FontFindings(code), UnwrapFindings(code),
                         TouchFindings(code, touchMatches), ViewModelFindings(code), AccessibilityFindings(code));
    ViewModelFindingsShape(code);
  }

  lemma ViewModelFindingsShape(code: string)
    ensures |ViewModelFindings(code)| <= 1
    ensures ViewModelFindings(code) != [] <==> HasViewModelClass(code) && !HasStateEnum(code)
    ensures forall v :: v in ViewModelFindings(code) ==> v.severity == Warning && v.line.None?
  {
  }
}

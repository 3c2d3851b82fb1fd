/**
 Violation records, the `add_violation` step that appends one, and the loop
 every check runs: for each match in order, decide whether it is a violation
 and, if so, append it.
 */
module Violations {
  import opened Text
  import opened Patterns

  datatype Severity = Error | Warning {
    /** The string stored under the record's `severity` key. */
    function Name(): (r: string) {
      match this
      case Error => "error"
      case Warning => "warning"
    }
  }

  datatype Rule =
    | HardcodedFrameSize
    | HardcodedColor
    | HardcodedFontSize
    | ForceUnwrapping
    | TouchTargetTooSmall
    | MissingViewModelState
    | MissingAccessibilityLabel
  {
    /** The string stored under the record's `rule` key. */
    function Id(): (r: string) {
      match this
      case HardcodedFrameSize => "hardcoded_frame_size"
      case HardcodedColor => "hardcoded_color"
      case HardcodedFontSize => "hardcoded_font_size"
      case ForceUnwrapping => "force_unwrapping"
      case TouchTargetTooSmall => "touch_target_too_small"
      case MissingViewModelState => "missing_viewmodel_state"
      case MissingAccessibilityLabel => "missing_accessibility_label"
    }
  }

  /** The severity each rule is always reported with. */
  function RuleSeverity(rule: Rule): (r: Severity) {
    match rule
    case ForceUnwrapping => Error
    case TouchTargetTooSmall => Error
    case _ => Warning
  }

  /** One record; `line` is `None` when the record has no `line` key. */
  datatype Violation = Violation(severity: Severity, rule: Rule, message: string, line: Option<nat>)

  /** `add_violation`: append exactly one record and leave the earlier ones alone. */
  function AddViolation(vs: seq<Violation>, severity: Severity, rule: Rule, message: string, line: Option<nat>): (r: seq<Violation>)
    ensures |r| == |vs| + 1
    ensures r[..|vs|] == vs
    ensures r[|vs|].severity == severity && r[|vs|].rule == rule && r[|vs|].message == message
    ensures r[|vs|].line.Some? <==> line.Some?
    ensures line.Some? ==> r[|vs|].line.value == line.value
  {
    vs + [Violation(severity, rule, message, line)]
  }

  function OptionSeq(o: Option<Violation>): (r: seq<Violation>) {
    match o
    case Some(v) => [v]
    case None => []
  }

  /**
   A check's loop: for each match of `ms` in order, `emit` says whether it is
   a violation, and each one is appended with `AddViolation`.
   */
  function ReportMatches(vs: seq<Violation>, ms: seq<Match>, emit: Match -> Option<Violation>): (r: seq<Violation>)
    ensures |vs| <= |r| <= |vs| + |ms|
    ensures r[..|vs|] == vs
    decreases |ms|
  {
    if ms == [] then vs
    else
      var next :=
        match emit(ms[0])
        case Some(v) => AddViolation(vs, v.severity, v.rule, v.message, v.line)
        case None => vs;
      ReportMatches(next, ms[1..], emit)
  }

  /**
   Reference definition of what a check reports for `ms`, built from the last
   match backwards: exactly the violations `emit` yields, in match order.
   */
  function Emitted(ms: seq<Match>, emit: Match -> Option<Violation>): (r: seq<Violation>)
    ensures |r| <= |ms|
  {
    if ms == [] then [] else Emitted(ms[..|ms| - 1], emit) + OptionSeq(emit(ms[|ms| - 1]))
  }

  /** Every reported violation is what `emit` yields for one of the matches. */
  lemma {:induction false} EmittedSound(ms: seq<Match>, emit: Match -> Option<Violation>, v: Violation)
    requires v in Emitted(ms, emit)
    ensures exists k :: 0 <= k < |ms| && emit(ms[k]) == Some(v)
  {
    var init := ms[..|ms| - 1];
    if v in Emitted(init, emit) {
      EmittedSound(init, emit, v);
      var k :| 0 <= k < |init| && emit(init[k]) == Some(v);
      assert init[k] == ms[k];
    } else {
      assert emit(ms[|ms| - 1]) == Some(v);
    }
  }

  /** Whatever `emit` yields for one of the matches is reported. */
  lemma {:induction false} EmittedComplete(ms: seq<Match>, emit: Match -> Option<Violation>, k: nat)
    requires k < |ms| && emit(ms[k]).Some?
    ensures emit(ms[k]).value in Emitted(ms, emit)
  {
    var init := ms[..|ms| - 1];
    if k < |init| {
      assert init[k] == ms[k];
      EmittedComplete(init, emit, k);
    }
  }

  lemma {:induction false} EmittedAppend(a: seq<Match>, b: seq<Match>, emit: Match -> Option<Violation>)
    ensures Emitted(a + b, emit) == Emitted(a, emit) + Emitted(b, emit)
    decreases |b|
  {
    if b == [] {
      assert a + b == a;
    } else {
      assert (a + b)[..|a + b| - 1] == a + b[..|b| - 1];
      EmittedAppend(a, b[..|b| - 1], emit);
    }
  }

  /** One step of the loop: the first match's violation, if any, is appended. */
  lemma ReportMatchesStep(vs: seq<Violation>, ms: seq<Match>, emit: Match -> Option<Violation>)
    requires ms != []
    ensures ReportMatches(vs, ms, emit) == ReportMatches(vs + OptionSeq(emit(ms[0])), ms[1..], emit)
  {
    match emit(ms[0])
    case Some(v) =>
      assert AddViolation(vs, v.severity, v.rule, v.message, v.line) == vs + OptionSeq(emit(ms[0]));
    case None =>
      assert vs + OptionSeq(emit(ms[0])) == vs;
  }

  lemma EmittedCons(ms: seq<Match>, emit: Match -> Option<Violation>)
    requires ms != []
    ensures Emitted(ms, emit) == OptionSeq(emit(ms[0])) + Emitted(ms[1..], emit)
  {
    assert ms == [ms[0]] + ms[1..];
    EmittedAppend([ms[0]], ms[1..], emit);
    assert Emitted([ms[0]], emit) == OptionSeq(emit(ms[0])) by {
      assert [ms[0]][..0] == [];
    }
  }

  /** Folding `AddViolation` over the matches appends exactly the reference list. */
  lemma {:induction false} ReportMatchesIsEmitted(vs: seq<Violation>, ms: seq<Match>, emit: Match -> Option<Violation>)
    ensures ReportMatches(vs, ms, emit) == vs + Emitted(ms, emit)
    decreases |ms|
  {
    if ms != [] {
      var head := OptionSeq(emit(ms[0]));
      ReportMatchesStep(vs, ms, emit);
      ReportMatchesIsEmitted(vs + head, ms[1..], emit);
      EmittedCons(ms, emit);
      SeqAssoc(vs, head, Emitted(ms[1..], emit));
    }
  }

  /** Two loops in a row append the first loop's violations, then the second's. */
  lemma {:induction false} ReportTwice(vs: seq<Violation>, ms1: seq<Match>, emit1: Match -> Option<Violation>,
                    ms2: seq<Match>, emit2: Match -> Option<Violation>)
    ensures ReportMatches(ReportMatches(vs, ms1, emit1), ms2, emit2) == vs + (Emitted(ms1, emit1) + Emitted(ms2, emit2))
  {
    var e1 := Emitted(ms1, emit1);
    var e2 := Emitted(ms2, emit2);
    var r1 := ReportMatches(vs, ms1, emit1);
    ReportMatchesIsEmitted(vs, ms1, emit1);
    ReportMatchesIsEmitted(r1, ms2, emit2);
    SeqAssoc(vs, e1, e2);
  }

  lemma SeqAssoc<T>(a: seq<T>, b: seq<T>, c: seq<T>)
    ensures (a + b) + c == a + (b + c)
  {
  }

  /** `for pattern in patterns: for match in ...`: the loop over each pattern's matches, pattern after pattern. */
  function ReportAll(vs: seq<Violation>, mss: seq<seq<Match>>, emit: Match -> Option<Violation>): (r: seq<Violation>)
    decreases |mss|
  {
    if mss == [] then vs else ReportAll(ReportMatches(vs, mss[0], emit), mss[1..], emit)
  }

  /** Reference definition: the violations `emit` yields for each list of matches, list after list. */
  function EmittedAll(mss: seq<seq<Match>>, emit: Match -> Option<Violation>): (r: seq<Violation>)
    decreases |mss|
  {
    if mss == [] then [] else Emitted(mss[0], emit) + EmittedAll(mss[1..], emit)
  }

  lemma {:induction false} ReportAllIsEmitted(vs: seq<Violation>, mss: seq<seq<Match>>, emit: Match -> Option<Violation>)
    ensures ReportAll(vs, mss, emit) == vs + EmittedAll(mss, emit)
    decreases |mss|
  {
    if mss == [] {
      assert vs + [] == vs;
    } else {
      var e := Emitted(mss[0], emit);
      ReportMatchesIsEmitted(vs, mss[0], emit);
      ReportAllIsEmitted(vs + e, mss[1..], emit);
      SeqAssoc(vs, e, EmittedAll(mss[1..], emit));
    }
  }

  /** Four lists of matches report the first list's violations, then the second's, third's and fourth's. */
  lemma EmittedAllFour(mss: seq<seq<Match>>, emit: Match -> Option<Violation>)
    requires |mss| == 4
    ensures EmittedAll(mss, emit) == Emitted(mss[0], emit) + Emitted(mss[1], emit) + Emitted(mss[2], emit) + Emitted(mss[3], emit)
  {
    var e0, e1, e2, e3 := Emitted(mss[0], emit), Emitted(mss[1], emit), Emitted(mss[2], emit), Emitted(mss[3], emit);
    var m1, m2, m3 := mss[1..], mss[2..], mss[3..];
    assert m1[0] == mss[1] && m1[1..] == m2;
    assert m2[0] == mss[2] && m2[1..] == m3;
    assert m3[0] == mss[3] && m3[1..] == [];
    assert EmittedAll(m3, emit) == e3 + [] == e3;
    assert EmittedAll(m2, emit) == e2 + e3;
    assert EmittedAll(m1, emit) == e1 + (e2 + e3);
    SeqAssoc(e1, e2, e3);
    SeqAssoc(e0, e1, e2 + e3);
    SeqAssoc(e0 + e1, e2, e3);
  }

  /** Everything `emit` yields is a violation of `rule`, with that rule's severity. */
  ghost predicate YieldsRule(emit: Match -> Option<Violation>, rule: Rule) {
    forall m: Match :: emit(m).Some? ==> emit(m).value.rule == rule && emit(m).value.severity == RuleSeverity(rule)
  }

  lemma EmittedRule(ms: seq<Match>, emit: Match -> Option<Violation>, rule: Rule)
    requires YieldsRule(emit, rule)
    ensures forall v :: v in Emitted(ms, emit) ==> v.rule == rule && v.severity == RuleSeverity(rule)
    ensures SeveritiesFixed(Emitted(ms, emit))
  {
    forall v | v in Emitted(ms, emit)
      ensures v.rule == rule && v.severity == RuleSeverity(rule)
    {
      EmittedSound(ms, emit, v);
    }
  }

  lemma {:induction false} EmittedAllRule(mss: seq<seq<Match>>, emit: Match -> Option<Violation>, rule: Rule)
    requires YieldsRule(emit, rule)
    ensures forall v :: v in EmittedAll(mss, emit) ==> v.rule == rule && v.severity == RuleSeverity(rule)
    decreases |mss|
  {
    if mss != [] {
      EmittedRule(mss[0], emit, rule);
      EmittedAllRule(mss[1..], emit, rule);
    }
  }

  /** Every record carries its rule's fixed severity. */
  predicate SeveritiesFixed(vs: seq<Violation>) {
    forall i :: 0 <= i < |vs| ==> vs[i].severity == RuleSeverity(vs[i].rule)
  }

  lemma SeveritiesFixedAppend(a: seq<Violation>, b: seq<Violation>)
    requires SeveritiesFixed(a) && SeveritiesFixed(b)
    ensures SeveritiesFixed(a + b)
  {
    forall i | 0 <= i < |a + b|
      ensures (a + b)[i].severity == RuleSeverity((a + b)[i].rule)
    {
      if i >= |a| {
        assert (a + b)[i] == b[i - |a|];
      }
    }
  }

  lemma SeveritiesFixedSeven(a: seq<Violation>, b: seq<Violation>, c: seq<Violation>, d: seq<Violation>,
                             e: seq<Violation>, f: seq<Violation>, g: seq<Violation>)
    requires SeveritiesFixed(a) && SeveritiesFixed(b) && SeveritiesFixed(c) && SeveritiesFixed(d)
    requires SeveritiesFixed(e) && SeveritiesFixed(f) && SeveritiesFixed(g)
    ensures SeveritiesFixed(a + b + c + d + e + f + g)
  {
    SeveritiesFixedAppend(a, b);
    SeveritiesFixedAppend(a + b, c);
    SeveritiesFixedAppend(a + b + c, d);
    SeveritiesFixedAppend(a + b + c + d, e);
    SeveritiesFixedAppend(a + b + c + d + e, f);
    SeveritiesFixedAppend(a + b + c + d + e + f, g);
  }

  /** Every record of `vs` is a violation of `rule`. */
  predicate AllOfRule(vs: seq<Violation>, rule: Rule) {
    forall v :: v in vs ==> v.rule == rule
  }

  lemma {:induction false} OfRuleSeven(a: seq<Violation>, b: seq<Violation>, c: seq<Violation>, d: seq<Violation>,
                                       e: seq<Violation>, f: seq<Violation>, g: seq<Violation>, rule: Rule)
    ensures OfRule(a + b + c + d + e + f + g, rule)
         == OfRule(a, rule) + OfRule(b, rule) + OfRule(c, rule) + OfRule(d, rule)
          + OfRule(e, rule) + OfRule(f, rule) + OfRule(g, rule)
  {
    OfRuleAppend(a, b, rule);
    OfRuleAppend(a + b, c, rule);
    OfRuleAppend(a + b + c, d, rule);
    OfRuleAppend(a + b + c + d, e, rule);
    OfRuleAppend(a + b + c + d + e, f, rule);
    OfRuleAppend(a + b + c + d + e + f, g, rule);
  }

  /** The one list of `a`..`g`, holding the rules in check order, that holds `rule`. */
  function PickByRule(a: seq<Violation>, b: seq<Violation>, c: seq<Violation>, d: seq<Violation>,
                      e: seq<Violation>, f: seq<Violation>, g: seq<Violation>, rule: Rule): (r: seq<Violation>) {
    match rule
    case HardcodedFrameSize => a
    case HardcodedColor => b
    case HardcodedFontSize => c
    case ForceUnwrapping => d
    case TouchTargetTooSmall => e
    case MissingViewModelState => f
    case MissingAccessibilityLabel => g
  }

  /** Seven lists, one per rule in check order: filtering their concatenation by a rule gives that rule's list. */
  lemma {:induction false} OfRuleByCheck(a: seq<Violation>, b: seq<Violation>, c: seq<Violation>, d: seq<Violation>,
                                         e: seq<Violation>, f: seq<Violation>, g: seq<Violation>, rule: Rule)
    requires AllOfRule(a, HardcodedFrameSize) && AllOfRule(b, HardcodedColor) && AllOfRule(c, HardcodedFontSize)
    requires AllOfRule(d, ForceUnwrapping) && AllOfRule(e, TouchTargetTooSmall)
    requires AllOfRule(f, MissingViewModelState) && AllOfRule(g, MissingAccessibilityLabel)
    ensures OfRule(a + b + c + d + e + f + g, rule) == PickByRule(a, b, c, d, e, f, g, rule)
  {
    OfRuleSeven(a, b, c, d, e, f, g, rule);
    var fa, fb, fc, fd, fe, ff, fg := OfRule(a, rule), OfRule(b, rule), OfRule(c, rule), OfRule(d, rule),
                                      OfRule(e, rule), OfRule(f, rule), OfRule(g, rule);
    OfRuleUniform(a, HardcodedFrameSize, rule);
    OfRuleUniform(b, HardcodedColor, rule);
    OfRuleUniform(c, HardcodedFontSize, rule);
    OfRuleUniform(d, ForceUnwrapping, rule);
    OfRuleUniform(e, TouchTargetTooSmall, rule);
    OfRuleUniform(f, MissingViewModelState, rule);
    OfRuleUniform(g, MissingAccessibilityLabel, rule);
    ConcatSevenOne(fa, fb, fc, fd, fe, ff, fg, PickByRule(fa, fb, fc, fd, fe, ff, fg, rule), rule);
  }

  /** Of seven lists, one per rule in check order, only the sixth holds ViewModel violations. */
  lemma ViewModelRuleOfSeven(a: seq<Violation>, b: seq<Violation>, c: seq<Violation>, d: seq<Violation>,
                             e: seq<Violation>, f: seq<Violation>, g: seq<Violation>)
    requires AllOfRule(a, HardcodedFrameSize) && AllOfRule(b, HardcodedColor) && AllOfRule(c, HardcodedFontSize)
    requires AllOfRule(d, ForceUnwrapping) && AllOfRule(e, TouchTargetTooSmall)
    requires AllOfRule(f, MissingViewModelState) && AllOfRule(g, MissingAccessibilityLabel)
    ensures OfRule(a + b + c + d + e + f + g, MissingViewModelState) == f
  {
    OfRuleByCheck(a, b, c, d, e, f, g, MissingViewModelState);
  }

  /** Six empty lists and one other, laid end to end, give the other one. */
  lemma ConcatSevenOne(a: seq<Violation>, b: seq<Violation>, c: seq<Violation>, d: seq<Violation>,
                       e: seq<Violation>, f: seq<Violation>, g: seq<Violation>, x: seq<Violation>, rule: Rule)
    requires x == PickByRule(a, b, c, d, e, f, g, rule)
    requires rule != HardcodedFrameSize ==> a == []
    requires rule != HardcodedColor ==> b == []
    requires rule != HardcodedFontSize ==> c == []
    requires rule != ForceUnwrapping ==> d == []
    requires rule != TouchTargetTooSmall ==> e == []
    requires rule != MissingViewModelState ==> f == []
    requires rule != MissingAccessibilityLabel ==> g == []
    ensures a + b + c + d + e + f + g == x
  {
    var none: seq<Violation> := [];
    assert none + x == x && x + none == x;
  }

  /** The records of `vs` whose rule is `rule`, in order. */
  function OfRule(vs: seq<Violation>, rule: Rule): (r: seq<Violation>)
    ensures |r| <= |vs|
  {
    if vs == [] then []
    else OfRule(vs[..|vs| - 1], rule) + (if vs[|vs| - 1].rule == rule then [vs[|vs| - 1]] else [])
  }

  lemma {:induction false} OfRuleAppend(a: seq<Violation>, b: seq<Violation>, rule: Rule)
    ensures OfRule(a + b, rule) == OfRule(a, rule) + OfRule(b, rule)
    decreases |b|
  {
    if b == [] {
      assert a + b == a;
    } else {
      assert (a + b)[..|a + b| - 1] == a + b[..|b| - 1];
      OfRuleAppend(a, b[..|b| - 1], rule);
      SeqAssoc(OfRule(a, rule), OfRule(b[..|b| - 1], rule), if b[|b| - 1].rule == rule then [b[|b| - 1]] else []);
    }
  }

  /** Filtering a list whose records all have rule `rule` keeps all of it for `rule` and nothing for any other rule. */
  lemma {:induction false} OfRuleUniform(vs: seq<Violation>, rule: Rule, other: Rule)
    requires AllOfRule(vs, rule)
    ensures OfRule(vs, rule) == vs
    ensures other != rule ==> OfRule(vs, other) == []
  {
    if vs != [] {
      var init := vs[..|vs| - 1];
      var last := vs[|vs| - 1];
      assert forall v :: v in init ==> v in vs;
      OfRuleUniform(init, rule, other);
      assert last in vs;
      assert last.rule == rule;
      assert OfRule(vs, rule) == init + [last];
      assert init + [last] == vs;
      assert other != rule ==> OfRule(vs, other) == OfRule(init, other) + [];
    }
  }

  /** The start offsets of the matches of `ms` for which `emit` yields a violation. */
  function FlaggedStarts(ms: seq<Match>, emit: Match -> Option<Violation>): (r: set<nat>) {
    set k | 0 <= k < |ms| && emit(ms[k]).Some? :: ms[k].start
  }

  /**
   With strictly increasing starts, a check reports exactly one violation per
   flagged start: no match is reported twice and none is dropped.
   */
  lemma {:induction false} EmittedCount(ms: seq<Match>, emit: Match -> Option<Violation>)
    requires StartsAscending(ms)
    ensures |Emitted(ms, emit)| == |FlaggedStarts(ms, emit)|
  {
    if ms != [] {
      var init := ms[..|ms| - 1];
      var last := ms[|ms| - 1];
      assert StartsAscending(init) by {
        assert forall k :: 0 <= k < |init| ==> init[k] == ms[k];
      }
      EmittedCount(init, emit);
      FlaggedStartsLast(ms, emit);
      assert |Emitted(ms, emit)| == |Emitted(init, emit)| + |OptionSeq(emit(last))|;
    }
  }

  /** Adding a last match with the largest start adds its start to the flagged set exactly when it is flagged. */
  lemma FlaggedStartsLast(ms: seq<Match>, emit: Match -> Option<Violation>)
    requires ms != [] && StartsAscending(ms)
    ensures var prev := FlaggedStarts(ms[..|ms| - 1], emit);
      var last := ms[|ms| - 1];
      && last.start !in prev
      && FlaggedStarts(ms, emit) == if emit(last).Some? then prev + {last.start} else prev
  {
    var init := ms[..|ms| - 1];
    var last := ms[|ms| - 1];
    var prev := FlaggedStarts(init, emit);
    forall q | q in prev
      ensures q < last.start
    {
      var k :| 0 <= k < |init| && emit(init[k]).Some? && init[k].start == q;
      assert init[k] == ms[k];
    }
    forall q | q in FlaggedStarts(ms, emit)
      ensures q in prev || (q == last.start && emit(last).Some?)
    {
      var k :| 0 <= k < |ms| && emit(ms[k]).Some? && ms[k].start == q;
      if k < |init| {
        assert init[k] == ms[k];
      }
    }
    forall q | q in prev
      ensures q in FlaggedStarts(ms, emit)
    {
      var k :| 0 <= k < |init| && emit(init[k]).Some? && init[k].start == q;
      assert init[k] == ms[k];
    }
  }

  /** The recorded lines never decrease along `vs` (records without a line are ignored). */
  predicate LinesNonDecreasing(vs: seq<Violation>) {
    forall i, j :: 0 <= i < j < |vs| && vs[i].line.Some? && vs[j].line.Some? ==> vs[i].line.value <= vs[j].line.value
  }

  /** `emit` reports each match of `ms` it flags on the line where that match starts. */
  predicate LinesAtMatchStart(code: string, ms: seq<Match>, emit: Match -> Option<Violation>) {
    forall k :: 0 <= k < |ms| && emit(ms[k]).Some? ==> emit(ms[k]).value.line == Some(LineNumber(code, ms[k].start))
  }

  /** Matches taken left to right, each reported at its own line, give violations in line order. */
  lemma {:induction false} EmittedLinesInOrder(code: string, ms: seq<Match>, emit: Match -> Option<Violation>)
    requires StartsAscending(ms)
    requires LinesAtMatchStart(code, ms, emit)
    ensures LinesNonDecreasing(Emitted(ms, emit))
  {
    if ms != [] {
      var init := ms[..|ms| - 1];
      var last := ms[|ms| - 1];
      assert forall k :: 0 <= k < |init| ==> init[k] == ms[k];
      EmittedLinesInOrder(code, init, emit);
      var e := Emitted(init, emit);
      if emit(last).Some? {
        forall i | 0 <= i < |e| && e[i].line.Some?
          ensures e[i].line.value <= emit(last).value.line.value
        {
          EmittedSound(init, emit, e[i]);
          var k :| 0 <= k < |init| && emit(init[k]) == Some(e[i]);
          LineNumberMonotone(code, init[k].start, last.start);
        }
      }
    }
  }
}

/**
 `analyze_swift_code`: run the analysis and wrap its violations in a report
 with a status and a summary of how many violations there are in total and
 of each severity.
 */
module Summary {
  import opened Text
  import opened Patterns
  import opened Violations
  import opened Analyzer

  datatype Counts = Counts(total: nat, errors: nat, warnings: nat)

  datatype Report = Report(status: string, violations: seq<Violation>, summary: Counts)

  /** `len([v for v in vs if v["severity"] == s])`. */
  function CountSeverity(vs: seq<Violation>, s: Severity): (r: nat)
    ensures r <= |vs|
  {
    if vs == [] then 0
    else CountSeverity(vs[..|vs| - 1], s) + (if vs[|vs| - 1].severity == s then 1 else 0)
  }

  lemma {:induction false} CountSeverityAppend(a: seq<Violation>, b: seq<Violation>, s: Severity)
    ensures CountSeverity(a + b, s) == CountSeverity(a, s) + CountSeverity(b, s)
    decreases |b|
  {
    if b == [] {
      assert a + b == a;
    } else {
      assert (a + b)[..|a + b| - 1] == a + b[..|b| - 1];
      CountSeverityAppend(a, b[..|b| - 1], s);
    }
  }

  /** Every record is either an error or a warning, so the two counts add up to the length. */
  lemma {:induction false} CountsPartition(vs: seq<Violation>)
    ensures CountSeverity(vs, Error) + CountSeverity(vs, Warning) == |vs|
  {
    if vs != [] {
      CountsPartition(vs[..|vs| - 1]);
    }
  }

  /** A list whose records all have severity `s` counts all of them under `s` and none under the other. */
  lemma {:induction false} CountUniform(vs: seq<Violation>, s: Severity, other: Severity)
    requires forall v :: v in vs ==> v.severity == s
    requires other != s
    ensures CountSeverity(vs, s) == |vs|
    ensures CountSeverity(vs, other) == 0
  {
    if vs != [] {
      var init := vs[..|vs| - 1];
      assert forall v :: v in init ==> v in vs;
      CountUniform(init, s, other);
      assert vs[|vs| - 1] in vs;
    }
  }

  /** The `summary` object: total, errors and warnings, where errors and warnings add up to the total. */
  function Summarize(vs: seq<Violation>): (r: Counts)
    ensures r.total == |vs|
    ensures r.errors + r.warnings == r.total
    ensures r.errors == CountSeverity(vs, Error)
    ensures r.warnings == CountSeverity(vs, Warning)
  {
    CountsPartition(vs);
    Counts(|vs|, CountSeverity(vs, Error), CountSeverity(vs, Warning))
  }

  /** `analyze_swift_code(code)`: always a success, listing the analysis' violations with their summary. */
  function AnalyzeSwiftCode(code: string, touchMatches: seq<Match>): (r: Report)
    ensures r.status == "success"
    ensures r.violations == Analyze(code, touchMatches)
    ensures r.summary.total == |r.violations|
    ensures r.summary.errors + r.summary.warnings == r.summary.total
    ensures r.summary.errors == CountSeverity(r.violations, Error)
    ensures r.summary.warnings == CountSeverity(r.violations, Warning)
  {
    var vs := Analyze(code, touchMatches);
    Report("success", vs, Summarize(vs))
  }

  /** Counting over seven lists laid end to end adds up the counts of the lists. */
  lemma CountSeven(a: seq<Violation>, b: seq<Violation>, c: seq<Violation>, d: seq<Violation>,
                   e: seq<Violation>, f: seq<Violation>, g: seq<Violation>, s: Severity)
    ensures CountSeverity(a + b + c + d + e + f + g, s)
         == CountSeverity(a, s) + CountSeverity(b, s) + CountSeverity(c, s) + CountSeverity(d, s)
          + CountSeverity(e, s) + CountSeverity(f, s) + CountSeverity(g, s)
  {
    CountSeverityAppend(a, b, s);
    CountSeverityAppend(a + b, c, s);
    CountSeverityAppend(a + b + c, d, s);
    CountSeverityAppend(a + b + c + d, e, s);
    CountSeverityAppend(a + b + c + d + e, f, s);
    CountSeverityAppend(a + b + c + d + e + f, g, s);
  }

  /** Counts of a list that holds only errors or only warnings. */
  lemma CountOf(vs: seq<Violation>, s: Severity)
    requires forall v :: v in vs ==> v.severity == s
    ensures CountSeverity(vs, Error) == (if s == Error then |vs| else 0)
    ensures CountSeverity(vs, Warning) == (if s == Warning then |vs| else 0)
  {
    CountUniform(vs, s, if s == Error then Warning else Error);
  }

  lemma ErrorFindingsUniform(code: string, touchMatches: seq<Match>)
    ensures CountSeverity(UnwrapFindings(code), Error) == |UnwrapFindings(code)|
    ensures CountSeverity(UnwrapFindings(code), Warning) == 0
    ensures CountSeverity(TouchFindings(code, touchMatches), Error) == |TouchFindings(code, touchMatches)|
    ensures CountSeverity(TouchFindings(code, touchMatches), Warning) == 0
  {
    EmittedRule(FindAll(code, ForceUnwrap, 0), UnwrapEmit(code), ForceUnwrapping);
    EmittedRule(touchMatches, TouchEmit(code), TouchTargetTooSmall);
    CountOf(UnwrapFindings(code), Error);
    CountOf(TouchFindings(code, touchMatches), Error);
  }

  lemma FrameFindingsUniform(code: string)
    ensures CountSeverity(FrameFindings(code), Warning) == |FrameFindings(code)|
    ensures CountSeverity(FrameFindings(code), Error) == 0
  {
    EmittedRule(WidthMatches(code), FrameEmit(code, WidthDescription), HardcodedFrameSize);
    EmittedRule(HeightMatches(code), FrameEmit(code, HeightDescription), HardcodedFrameSize);
    CountOf(FrameFindings(code), Warning);
  }

  lemma ColorFindingsUniform(code: string)
    ensures CountSeverity(ColorFindings(code), Warning) == |ColorFindings(code)|
    ensures CountSeverity(ColorFindings(code), Error) == 0
  {
    EmittedAllRule(ColorMatches(code), ColorEmit(code), HardcodedColor);
    CountOf(ColorFindings(code), Warning);
  }

  lemma FontFindingsUniform(code: string)
    ensures CountSeverity(FontFindings(code), Warning) == |FontFindings(code)|
    ensures CountSeverity(FontFindings(code), Error) == 0
  {
    EmittedRule(FindAll(code, SystemFont, 0), FontEmit(code), HardcodedFontSize);
    CountOf(FontFindings(code), Warning);
  }

  lemma GateAndLabelFindingsUniform(code: string)
    ensures CountSeverity(ViewModelFindings(code), Warning) == |ViewModelFindings(code)|
    ensures CountSeverity(ViewModelFindings(code), Error) == 0
    ensures CountSeverity(AccessibilityFindings(code), Warning) == |AccessibilityFindings(code)|
    ensures CountSeverity(AccessibilityFindings(code), Error) == 0
  {
    EmittedRule(FindAll(code, ButtonCall, 0), AccessibilityEmit(code), MissingAccessibilityLabel);
    CountOf(ViewModelFindings(code), Warning);
    CountOf(AccessibilityFindings(code), Warning);
  }

  /**
   The errors in the summary are exactly the force-unwrap and touch-target
   findings; every other check contributes to the warnings.
   */
  lemma SummaryCountsByCheck(code: string, touchMatches: seq<Match>)
    ensures AnalyzeSwiftCode(code, touchMatches).summary.errors
         == |UnwrapFindings(code)| + |TouchFindings(code, touchMatches)|
    ensures AnalyzeSwiftCode(code, touchMatches).summary.warnings
         == |FrameFindings(code)| + |ColorFindings(code)| + |FontFindings(code)|
          + |ViewModelFindings(code)| + |AccessibilityFindings(code)|
  {
    CountSeven(FrameFindings(code), ColorFindings(code), FontFindings(code), UnwrapFindings(code),
               TouchFindings(code, touchMatches), ViewModelFindings(code), AccessibilityFindings(code), Error);
    CountSeven(FrameFindings(code), ColorFindings(code), FontFindings(code), UnwrapFindings(code),
               TouchFindings(code, touchMatches), ViewModelFindings(code), AccessibilityFindings(code), Warning);
    ErrorFindingsUniform(code, touchMatches);
    FrameFindingsUniform(code);
    ColorFindingsUniform(code);
    FontFindingsUniform(code);
    GateAndLabelFindingsUniform(code);
  }
}

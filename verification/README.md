# Swift syntax analyzer — a Dafny model

This project models `SwiftAnalyzer` and `analyze_swift_code` from
`ios-master-skills/tools/swift_syntax_analyzer.py`. The analyzer is a lint
over one string of Swift source text. It runs seven checks in a fixed order:
hardcoded frame sizes, hardcoded colours, hardcoded font sizes, force
unwrapping, small touch targets, a ViewModel without a `State` enum, and image
buttons without an accessibility label. Each check appends violation records
(severity, rule, message, optional line) to one list. `analyze_swift_code`
wraps that list in a report with a total, an error count and a warning count.

Layout:

- `text.dfy` (module `Text`): the Python string primitives the checks use.
  These are `count('\n')` for line numbers, `find`, `rfind`, clamped slicing,
  the character classes `\s`, `\d`, `\w`, and `int`/`str` on numbers.
- `patterns.dfy` (module `Patterns`): the regular expressions of the checks,
  written out by hand. It contains a matcher for the `literal \s* tail` shape,
  a matcher for the force-unwrap pattern `(?<!try)!\s*(?![=])`, and
  `re.finditer`'s scan order (`FindAll`). It proves that `FindAll` is sound,
  proceeds left to right, and misses only matches that start inside a
  reported one.
- `violations.dfy` (module `Violations`): the `Severity` and `Rule` enums, the
  `Violation` record and `add_violation`. It also holds the loop every check
  runs ("for each match, maybe append"). That loop comes with a reference
  definition (`Emitted`) and the lemma connecting the two.
- `braces.dfy` (module `Braces`): the brace-counting loop of the accessibility
  check as a method with loop invariants, and the 200-character snippet
  window.
- `analyzer.dfy` (module `Analyzer`): the seven checks and `analyze`, each
  check's reference list (`...Findings`), and the properties. Those cover
  check order, fixed severities, the comment skip, the touch threshold, the
  ViewModel gate and the accessibility test.
- `summary.dfy` (module `Summary`): `analyze_swift_code` and its counts.

The touch-target pattern is not implemented here. Its lazy `.*?` and
`[\s\S]*?` would need a backtracking regex engine. Its matches are instead an
input, `touchMatches`: the sequence of (start, end, captured digits) that
`re.finditer` returns for it. The model reads each captured digit string as a
number and compares it with 44, as the check does. It does not model the
failure of Python's `int()` on very long digit strings (see "Left out").

Behaviour of the source that the model keeps, and that a reader might not
expect:

- The `hardcoded_frame_size` rule is a warning for every size. Its two
  patterns need `)` right after the digits, so
  `.frame(width: 30, height: 30)` is not a frame finding at all. Only the
  touch-target check compares a size with 44, and it reports errors.
- A force-unwrap match is skipped when a `//` starts before it on the same
  line (`Analyzer.InCommentIff`).
- `UIColor(red: 1` is reported twice: `Color\(red:` matches two characters
  in, and `UIColor\(red:` matches at the start
  (`Analyzer.UIColorReportedTwice`).
- The report's status is always `"success"`; the report only counts errors
  and warnings.

## Model

Source paths are relative to the repository root.

| member | source | states |
|---|---|---|
| Text.LineNumber | ios-master-skills/tools/swift_syntax_analyzer.py:56 | the line of an offset is one more than the newlines before it, with the offset clamped to the text; it is at least 1 and at most one more than the number of newlines in the text |
| Text.LineNumberMonotone | ios-master-skills/tools/swift_syntax_analyzer.py:116 | line numbers never decrease as the match offset grows |
| Text.LineNumberStep | ios-master-skills/tools/swift_syntax_analyzer.py:93 | moving one character forward raises the line exactly when that character is a newline |
| Text.FindFrom | ios-master-skills/tools/swift_syntax_analyzer.py:110 | `find` returns the first occurrence at or after the start, or -1 exactly when there is none |
| Text.RFindChar | ios-master-skills/tools/swift_syntax_analyzer.py:109 | `rfind('\n', 0, s)` returns the last newline before `s`, or -1 when there is none |
| Text.Slice | ios-master-skills/tools/swift_syntax_analyzer.py:111 | a slice with bounds inside the text is the plain subsequence |
| Text.DecimalStringRoundTrip | ios-master-skills/tools/swift_syntax_analyzer.py:131-137 | printing the parsed size in the message and reading it back gives the same number |
| Patterns.MatchAt | ios-master-skills/tools/swift_syntax_analyzer.py:52-53 | the match of a pattern tried at offset `i`, as `re.finditer` tries each offset: when there is one it starts at `i`, is non-empty and lies inside the text |
| Patterns.MatchTail | ios-master-skills/tools/swift_syntax_analyzer.py:47-49 | after a pattern's head and its `\s*`: for `(\d+)\)` the group is a non-empty run of digits and the match ends just after the `)` |
| Patterns.CaptureIntMatchUnique | ios-master-skills/tools/swift_syntax_analyzer.py:48-49 | whenever `head\s*(\d+)\)` can match at an offset (head, whitespace, at least one digit, `)`), the matcher returns that match, ending after the `)` with the digits as the group |
| Patterns.NumberMatchIff | ios-master-skills/tools/swift_syntax_analyzer.py:68-71 | `head\s*[\d.]+` (colour patterns 0, 2 and 3) matches at an offset exactly when the text there is head, whitespace, then at least one digit or `.` |
| Patterns.NumberMatchUnique | ios-master-skills/tools/swift_syntax_analyzer.py:68-71 | when the run of digits and dots after head and whitespace is taken to its end, the match is that span: `[\d.]+` is greedy |
| Patterns.LitMatchIff | ios-master-skills/tools/swift_syntax_analyzer.py:69 | `Color\(\.sRGB,\s*red:` matches at an offset exactly when the text there is head, whitespace, then the literal |
| Patterns.LitMatchUnique | ios-master-skills/tools/swift_syntax_analyzer.py:69 | such a match ends right after the literal, wherever the whitespace run ends |
| Patterns.CaptureIntMatchSound | ios-master-skills/tools/swift_syntax_analyzer.py:88 | every match the matcher returns for `head\s*(\d+)\)` is head, whitespace, digits and `)` in that order |
| Patterns.MatchBang | ios-master-skills/tools/swift_syntax_analyzer.py:104 | a force-unwrap match is a `!` not preceded by `try`, followed by whitespace only |
| Patterns.FindAll | ios-master-skills/tools/swift_syntax_analyzer.py:53 | `re.finditer` from an offset: every reported match lies inside the text at or after that offset |
| Patterns.FindAllSound | ios-master-skills/tools/swift_syntax_analyzer.py:53 | every match the scan reports is a real match of the pattern at its start offset |
| Patterns.FindAllLeftToRight | ios-master-skills/tools/swift_syntax_analyzer.py:75 | reported matches are in left-to-right order and do not overlap |
| Patterns.FindAllAscending | ios-master-skills/tools/swift_syntax_analyzer.py:89 | reported matches have strictly increasing start offsets |
| Patterns.FindAllComplete | ios-master-skills/tools/swift_syntax_analyzer.py:105 | any offset where the pattern matches lies inside some reported match |
| Patterns.UnwrapMatchIff | ios-master-skills/tools/swift_syntax_analyzer.py:104 | the force-unwrap pattern matches at an offset exactly when it holds `!`, not after `try` and not directly before `=` |
| Patterns.AllUnwrapSitesFound | ios-master-skills/tools/swift_syntax_analyzer.py:104-107 | every such `!` is the start of a reported match |
| Patterns.AllButtonsFound | ios-master-skills/tools/swift_syntax_analyzer.py:163 | every occurrence of `Button(` is the start of a reported match |
| Patterns.ViewModelClassIff | ios-master-skills/tools/swift_syntax_analyzer.py:144-145 | the matcher's test at an offset holds exactly when `class\s+\w+ViewModel` can match there: `class`, at least one whitespace character, at least one word character, then `ViewModel` |
| Patterns.HasViewModelClassIff | ios-master-skills/tools/swift_syntax_analyzer.py:144-146 | `re.search` for the ViewModel class succeeds exactly when that shape occurs somewhere in the text |
| Patterns.StateEnumIff | ios-master-skills/tools/swift_syntax_analyzer.py:149-150 | the matcher's test at an offset holds exactly when `enum\s+State\s*\{` can match there: `enum`, at least one whitespace character, `State`, any whitespace, then `{` |
| Patterns.HasStateEnumIff | ios-master-skills/tools/swift_syntax_analyzer.py:149-150 | `re.search` for the State enum succeeds exactly when that shape occurs somewhere in the text |
| Violations.AddViolation | ios-master-skills/tools/swift_syntax_analyzer.py:33-42 | appends exactly one record with the given severity, rule and message; it has a line exactly when one was given; earlier records are unchanged |
| Violations.ReportMatchesIsEmitted | ios-master-skills/tools/swift_syntax_analyzer.py:52-62 | a check's loop appends exactly the violations its matches yield, in match order, after the earlier list |
| Violations.ReportAllIsEmitted | ios-master-skills/tools/swift_syntax_analyzer.py:74-83 | looping over a pattern list appends each pattern's violations, pattern after pattern |
| Violations.EmittedCount | ios-master-skills/tools/swift_syntax_analyzer.py:54-62 | over matches with increasing starts, a check appends exactly one violation per match it flags |
| Violations.EmittedLinesInOrder | ios-master-skills/tools/swift_syntax_analyzer.py:76-77 | matches taken left to right, each reported on its own line, give non-decreasing lines |
| Analyzer.Analyze | ios-master-skills/tools/swift_syntax_analyzer.py:22-31 | `analyze()` returns the seven checks' findings concatenated in the fixed check order |
| Analyzer.CheckHardcodedFrameSizes | ios-master-skills/tools/swift_syntax_analyzer.py:44-62 | `check_hardcoded_frame_sizes` appends exactly the frame findings and leaves the earlier records alone |
| Analyzer.CheckHardcodedColors | ios-master-skills/tools/swift_syntax_analyzer.py:64-83 | `check_hardcoded_colors` appends exactly the colour findings and leaves the earlier records alone |
| Analyzer.CheckHardcodedFonts | ios-master-skills/tools/swift_syntax_analyzer.py:85-99 | `check_hardcoded_fonts` appends exactly the font findings and leaves the earlier records alone |
| Analyzer.CheckForceUnwrapping | ios-master-skills/tools/swift_syntax_analyzer.py:101-122 | `check_force_unwrapping` appends exactly the force-unwrap findings and leaves the earlier records alone |
| Analyzer.CheckTouchTargetSizes | ios-master-skills/tools/swift_syntax_analyzer.py:124-139 | `check_touch_target_sizes` appends exactly the touch-target findings and leaves the earlier records alone |
| Analyzer.CheckViewModelStateEnum | ios-master-skills/tools/swift_syntax_analyzer.py:141-155 | with no `class ...ViewModel` nothing is added; otherwise at most one warning without a line is added, exactly when no `enum State {` occurs; earlier records are unchanged |
| Analyzer.CheckAccessibilityLabels | ios-master-skills/tools/swift_syntax_analyzer.py:157-193 | `check_accessibility_labels` appends exactly the accessibility findings and leaves the earlier records alone |
| Analyzer.AnalyzeByRule | ios-master-skills/tools/swift_syntax_analyzer.py:44-193 | the violations of any one rule in the analysis are exactly those of the check that owns the rule |
| Analyzer.AnalyzeSeverities | ios-master-skills/tools/swift_syntax_analyzer.py:57-192 | every violation carries its rule's fixed severity: errors for force unwrapping and small touch targets, warnings otherwise |
| Analyzer.FrameFindingsPerMatch | ios-master-skills/tools/swift_syntax_analyzer.py:44-62 | one warning per width match, then per height match, on the match's line and naming its digits; lines in order within each pattern |
| Analyzer.ColorFindingsByPattern | ios-master-skills/tools/swift_syntax_analyzer.py:74-83 | the colour findings are the first pattern's warnings, then the second's, third's and fourth's |
| Analyzer.ColorFindingsPerMatch | ios-master-skills/tools/swift_syntax_analyzer.py:74-83 | each colour pattern contributes one warning per match of that pattern, on the match's line, in line order |
| Analyzer.UIColorReportedTwice | ios-master-skills/tools/swift_syntax_analyzer.py:68-71 | the single literal `UIColor(red: 1` is reported exactly twice, because two colour patterns match it |
| Analyzer.FontFindingsPerMatch | ios-master-skills/tools/swift_syntax_analyzer.py:85-99 | one warning per font-size match, on its line and naming its digits, in line order |
| Analyzer.LineStart | ios-master-skills/tools/swift_syntax_analyzer.py:109 | the line holding an offset starts just after the last newline before the offset, or at 0 |
| Analyzer.LineText | ios-master-skills/tools/swift_syntax_analyzer.py:110-111 | the line cut out around an offset runs from the line's start up to the next newline or the end, holds no newline and reaches the offset |
| Analyzer.InCommentIff | ios-master-skills/tools/swift_syntax_analyzer.py:108-114 | the source's test skips a force-unwrap match exactly when a `//` starts before it on its own line |
| Analyzer.UnwrapFindingsComplete | ios-master-skills/tools/swift_syntax_analyzer.py:101-122 | every `!` not after `try`, not before `=` and not after `//` on its line is reported as an error on its line |
| Analyzer.UnwrapFindingsSound | ios-master-skills/tools/swift_syntax_analyzer.py:107-122 | every force-unwrap error belongs to such a `!` and sits on its line |
| Analyzer.UnwrapOnePerSite | ios-master-skills/tools/swift_syntax_analyzer.py:105-122 | the check reports exactly as many errors as there are such `!`: one per site |
| Analyzer.TouchTargetThreshold | ios-master-skills/tools/swift_syntax_analyzer.py:130-139 | a touch match is reported exactly when its size is below 44, as an error on its line whose message holds the size |
| Analyzer.TouchEmit | ios-master-skills/tools/swift_syntax_analyzer.py:130-139 | a touch-target match yields a record exactly when its size is below 44, and that record is an error on the match's line |
| Analyzer.TouchFindingsComplete | ios-master-skills/tools/swift_syntax_analyzer.py:132-139 | every match with size below 44 is reported with its size and line |
| Analyzer.TouchFindingsSound | ios-master-skills/tools/swift_syntax_analyzer.py:130-138 | every touch-target error comes from a match with size below 44, on that match's line |
| Analyzer.TouchFindingsEmptyWhenLarge | ios-master-skills/tools/swift_syntax_analyzer.py:132 | when every size is at least 44 the check reports nothing |
| Analyzer.TouchFindingsInLineOrder | ios-master-skills/tools/swift_syntax_analyzer.py:130-133 | matches taken left to right give touch-target errors in line order |
| Analyzer.AnalyzeViewModelGate | ios-master-skills/tools/swift_syntax_analyzer.py:141-155 | in the whole analysis the ViewModel rule appears at most once, as a warning without a line, and exactly when a ViewModel class occurs without a `State` enum |
| Analyzer.AccessibilityComplete | ios-master-skills/tools/swift_syntax_analyzer.py:163-193 | every `Button(` whose snippet holds `Image(` but not `.accessibilityLabel` gets a warning on its line |
| Analyzer.AccessibilitySound | ios-master-skills/tools/swift_syntax_analyzer.py:165-192 | every accessibility warning belongs to such a `Button(`, on its line |
| Analyzer.AccessibilityOnePerButton | ios-master-skills/tools/swift_syntax_analyzer.py:163-193 | the check reports exactly as many warnings as there are such `Button(` calls: one per call |
| Analyzer.MissingLabelInText | ios-master-skills/tools/swift_syntax_analyzer.py:183-186 | a `Button(` is flagged exactly when an `Image(` lies inside its snippet window `[start, min(button_end + 200, len))` of the text and no `.accessibilityLabel` does |
| Text.ContainsInSlice | ios-master-skills/tools/swift_syntax_analyzer.py:186 | `pat in code[lo:hi]` holds exactly when an occurrence of `pat` in the text lies within `[lo, hi)` |
| Braces.ButtonEnd | ios-master-skills/tools/swift_syntax_analyzer.py:170-180 | the button end is the first `}` that brings the depth back to zero after a `{`, or the start when there is none |
| Braces.ScanButtonEnd | ios-master-skills/tools/swift_syntax_analyzer.py:167-180 | the brace-counting loop computes exactly that button end |
| Braces.SnippetEnd | ios-master-skills/tools/swift_syntax_analyzer.py:183 | the snippet's end lies inside the text, past the closing brace, and is 200 characters past the brace unless the text ends first |
| Braces.Snippet | ios-master-skills/tools/swift_syntax_analyzer.py:183 | for a start inside the text the snippet is the unclamped slice, holds the closing brace when there is one, and reaches at most 200 characters past it |
| Summary.CountSeverity | ios-master-skills/tools/swift_syntax_analyzer.py:206-207 | the count of one severity is at most the number of records |
| Summary.CountSeverityAppend | ios-master-skills/tools/swift_syntax_analyzer.py:206-207 | counting over two lists laid end to end adds their counts |
| Summary.Summarize | ios-master-skills/tools/swift_syntax_analyzer.py:203-207 | the total is the number of violations and errors plus warnings equal the total |
| Summary.CountsPartition | ios-master-skills/tools/swift_syntax_analyzer.py:205-207 | every record is counted as exactly one of error or warning |
| Summary.AnalyzeSwiftCode | ios-master-skills/tools/swift_syntax_analyzer.py:196-209 | the report has status success and the analysis' violations; the summary's total is their number, errors counts the error records, warnings the warning records, and the two add up to the total |
| Summary.SummaryCountsByCheck | ios-master-skills/tools/swift_syntax_analyzer.py:196-208 | the error count is the force-unwrap plus touch-target findings; the warning count is the other five checks' findings |

## Left out

- `main()`: reading the request from stdin, `json.loads` and `json.dumps`,
  `print`, `sys.exit`, the empty-code error reply and the exception handlers.
  This is I/O around `analyze_swift_code`.
- The touch-target regex (line 127) is not executed. Its matches are the input
  `touchMatches`. Nothing is proved about which texts produce which matches.
- `\d` and `\w` are restricted to ASCII digits, letters and `_`. Python also
  accepts other Unicode digits and letters there, and `int()` would read
  non-ASCII digits. `\s` is modelled with Python's full set of whitespace
  characters.
- Analyzer.TouchEmit: reads a captured digit string of any length as a
  number. On CPython 3.11 and later, `int()` (line 131) raises `ValueError`
  for a string of more than 4300 digits, leading zeros included. `analyze()`
  then stops and `main()` answers with an "Analysis failed" error (lines
  241-247). The model instead compares the number with 44 and reports it when
  it is smaller.
- The unused `button_pattern` at line 160 is dead code.
- Message texts are modelled as the constant strings of the source. The
  f-strings are modelled as concatenation of the fixed parts and the digits.
- Records are modelled as the `Violation` datatype rather than dictionaries.
  `Severity.Name` and `Rule.Id` give the strings the dictionaries hold.
- Python strings can hold lone surrogate code points (for example after
  `json.loads` of `"\ud800"`); Dafny strings cannot, so such texts are not
  modelled.

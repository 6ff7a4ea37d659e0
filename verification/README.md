# Security scanner finding engine, in Dafny

This project models the finding engine of `security_scanner.py`, a line-based static
scanner for Python source. The engine has four parts:

- **the rule table** `PATTERNS`. It holds seven regular expressions, each paired with a
  message. They are tried in insertion order: `eval(`, `exec(`, `os.system(`,
  `subprocess.<name>(`, `pickle(`, `input(` and a same-line `try: … except:`.
- **the rule matcher** `detect_vulnerabilities`. It visits each line, and within the
  line each rule in table order. It reports one finding for every rule whose regex
  `re.search` finds anywhere in the line. A finding holds the 1-based line number,
  the stripped line and the rule's message.
- **the zero/NaN-divisor detector** `detect_zero_division`. It applies a substring
  pre-filter (`/`, `//` or `%`), then the gate regex `(/|//|%)\s*(0|NaN)`. It reports
  at most one finding per line, with a constant message.
- **the orchestrator** `scan_code`. It returns all rule findings, then all divisor
  findings.

The model is split into modules:

- `Chars` holds the character classes. `\s` is Python's whitespace set, which is also
  what `str.strip` removes. `\w` is restricted to ASCII word characters. `.` is any
  character except a newline.
- `Text` holds runs, skips, literal matches and `Strip`. `Strip` is `str.strip()`,
  characterised as the unique whitespace-free trim of a string.
- `Patterns` gives the eight regexes (the seven rules and the divisor gate) twice.
  - `MatchesAt`/`Occurs` say what a regex search means: some start position and some
    way of splitting the text among the pattern's pieces.
  - `MatchesAtExec`/`Search` are greedy executable matchers.
  - `SearchCorrect` proves the two agree on every string.
- `Rules` holds the table order and the messages.
- `Scanner` holds the three detector functions and their contracts.
- `ScanLoops` holds the loop-based versions of the three functions, written the way
  the source writes them, and proves each equal to its function.
- `Scenarios` and `ScanScenarios` state the documented edge cases as lemmas about
  concrete lines.

A `Finding` carries the pattern that fired (`issue`). The message the source stores is
`Rules.Message(issue)`. `Rules.MessageInjective` shows that the two carry the same
information.

Calling a Dafny function twice on the same lines gives the same findings: the model has
no hidden state.

Behaviour of the source worth noting:

- The divisor gate has no boundary after `0`, so `x / 0.0` and `x / 05` ARE flagged
  (`Scenarios.ZeroDivisorFlaggedBeforeMoreDigits`).
- In the broad-except regex only `.*?` stops at a newline. The `\s*` pieces may cross
  one, so `try:\nexcept:` fires (`Scenarios.BroadExceptAcrossBlankNewline`). Lines
  from `readlines()` contain at most a trailing newline, so on real input the rule
  fires only within one physical line.

## Model

| member | source | states |
|---|---|---|
| Rules.Rank | security_scanner.py:5-13 | the table position of each rule pattern; the divisor pattern, and only it, lies outside the seven table positions, and the table holds each rule pattern at its rank |
| Rules.RankOfTable | security_scanner.py:5-13 | the table lists seven distinct patterns: the rank of the pattern at position k is k |
| Rules.MessageInjective | security_scanner.py:6-12 | distinct patterns carry distinct messages, so recording the pattern instead of the message loses nothing |
| Text.StripIsStrip | security_scanner.py:27 | `Strip` removes a whitespace prefix and a whitespace suffix and leaves no whitespace at either end |
| Text.StripOfIsStrip | security_scanner.py:27 | any trim that removes only leading and trailing whitespace and leaves none at either end equals `Strip` |
| Text.StripUnique | security_scanner.py:27 | a string has only one such trim |
| Text.StripIdempotent | security_scanner.py:27 | stripping a stripped line changes nothing |
| Text.StripUnchanged | security_scanner.py:27 | a non-empty line with no whitespace at either end strips to itself |
| Patterns.SpacesThenGreedy | security_scanner.py:6-11 | for `\s*` followed by a non-space character, the greedy skip finds a match exactly when some split does |
| Patterns.CallAtAgrees | security_scanner.py:6-11 | the executable test for `name\s*\(` (with or without a leading `\b`) at a position agrees with the regex meaning |
| Patterns.SubprocessAtAgrees | security_scanner.py:9 | for `\bsubprocess\.\w+\s*\(`, taking the longest `\w+` run loses no match |
| Patterns.ExceptAfterSpaces | security_scanner.py:12 | in `:\s*.*?except\s*:`, some split of the whitespace works exactly when the lazy scan from the end of the whitespace finds `except\s*:` before a newline |
| Patterns.BroadExceptAtAgrees | security_scanner.py:12 | the executable broad-except test at a position agrees with the regex meaning |
| Patterns.ZeroDivisorAtComplete | security_scanner.py:24 | a divisor-regex match at p is found by the executable gate at p, or at p + 1 when the operator taken was `//` |
| Patterns.ZeroDivisorAtExecSound | security_scanner.py:24 | every position the executable gate accepts starts a divisor-regex match |
| Patterns.MatchesAtSound | security_scanner.py:6-12 | every position an executable matcher accepts starts a regex match of that pattern |
| Patterns.MatchesAtComplete | security_scanner.py:6-12 | every regex match is found by the executable matcher at its start or, for `//`, one position later |
| Patterns.SearchFromSound | security_scanner.py:39 | a successful scan from p has found a regex match at or after p |
| Patterns.SearchFromComplete | security_scanner.py:39 | the scan from p succeeds whenever some later position matches |
| Patterns.SearchCorrect | security_scanner.py:39 | the executable search succeeds exactly when the regex occurs somewhere in the line |
| Patterns.ZeroDivisorStartsWithOperator | security_scanner.py:24 | a divisor-regex match starts at a `/` or a `%` |
| Patterns.MatchStartsWithLead | security_scanner.py:6-12 | every match of a pattern starts with one of its leading characters |
| Patterns.AbsentLeads | security_scanner.py:6-12 | a line lacking all of a pattern's leading characters never matches it |
| Scanner.RuleFindingsFromSound | security_scanner.py:38-44 | the findings from rule k on number at most the remaining rules, each about this line, quoting its stripped text, from a rule at position k or later whose matcher succeeds |
| Scanner.RuleFindingsFromSorted | security_scanner.py:38-44 | the findings from rule k on come in strictly increasing table order |
| Scanner.RuleFindingsFromComplete | security_scanner.py:38-44 | every rule at position k or later whose matcher succeeds has its finding in the list |
| Scanner.LineFindings | security_scanner.py:38-44 | one line yields at most seven findings, all for that line, all quoting the stripped line, none for the divisor pattern, in strictly increasing table order |
| Scanner.LineFindingsSound | security_scanner.py:39-43 | every finding for a line names a pattern that occurs in the line |
| Scanner.LineFindingsComplete | security_scanner.py:38-44 | a rule's finding is present for a line exactly when its pattern occurs anywhere in the line |
| Scanner.DetectVulnerabilities | security_scanner.py:32-45 | at most seven findings for each line scanned; every line number lies in 1..number of lines; no divisor finding; the output is ordered by line and then by table position |
| Scanner.AppendLineKeepsOrder | security_scanner.py:37-44 | appending a later line's findings in table order to findings ordered by line and table position keeps that order |
| Scanner.DetectVulnerabilitiesFromLine | security_scanner.py:37-44 | every rule finding is one that its own line yields |
| Scanner.DetectVulnerabilitiesSound | security_scanner.py:37-43 | every rule finding has a valid line number, quotes that line stripped, and names a pattern that occurs in that line |
| Scanner.DetectVulnerabilitiesReports | security_scanner.py:37-44 | every rule pattern that occurs on a line is reported for that line |
| Scanner.DetectVulnerabilitiesComplete | security_scanner.py:37-44 | a finding for line n and rule pattern p is reported exactly when p occurs in line n |
| Scanner.DetectVulnerabilitiesPerLine | security_scanner.py:37-44 | the findings reported for line n, in output order, are exactly that line's own findings: no duplicates, table order, nothing from other lines |
| Scanner.PreFilterImplied | security_scanner.py:22-24 | the substring pre-filter accepts every line on which the divisor regex occurs |
| Scanner.DivisorFindings | security_scanner.py:22-29 | one line yields at most one divisor finding, quoting that line stripped |
| Scanner.DivisorFindingsComplete | security_scanner.py:22-24 | a line yields the divisor finding exactly when the divisor regex occurs in it: the pre-filter changes nothing |
| Scanner.DetectZeroDivision | security_scanner.py:15-30 | at most one finding per line, all divisor findings, line numbers valid and strictly increasing |
| Scanner.AppendLineKeepsLineOrder | security_scanner.py:20-29 | appending at most one finding of a later line to findings in strictly increasing line order keeps that order |
| Scanner.DetectZeroDivisionFromLine | security_scanner.py:20-29 | every divisor finding is the one its own line yields |
| Scanner.DetectZeroDivisionSound | security_scanner.py:20-28 | every divisor finding has a valid line number, quotes that line stripped, and the divisor regex occurs in that line |
| Scanner.DetectZeroDivisionReports | security_scanner.py:20-29 | every line on which the divisor regex occurs is reported |
| Scanner.DetectZeroDivisionComplete | security_scanner.py:20-29 | a divisor finding for line n is reported exactly when the divisor regex occurs in line n |
| Scanner.ScanCode | security_scanner.py:47-54 | no lines give no findings; line numbers are valid; no divisor finding precedes a rule finding; rule findings are ordered by line and table position; divisor findings by strictly increasing line |
| Scanner.BlocksInOrder | security_scanner.py:51-53 | the rule block followed by the divisor block has the three ordering properties of `ScanCode` |
| Scanner.ScanCodeSound | security_scanner.py:47-54 | every finding of the scan quotes its stripped line and names a pattern that occurs in that line |
| Scanner.ScanCodeComplete | security_scanner.py:47-54 | for every line and every one of the eight patterns, the scan reports that finding exactly when the pattern occurs in the line |
| ScanLoops.RuleTableLoop | security_scanner.py:38-44 | the loop over the rule table builds exactly the line's rule findings |
| ScanLoops.LineFindingsLoop | security_scanner.py:38-44 | the inner loop yields exactly the findings of `LineFindings` |
| ScanLoops.DetectVulnerabilitiesLoop | security_scanner.py:32-45 | the nested loops with appends compute `DetectVulnerabilities` |
| ScanLoops.DetectZeroDivisionLoop | security_scanner.py:15-30 | the loop with both gates and appends computes `DetectZeroDivision` |
| ScanLoops.ScanCodeLoop | security_scanner.py:47-54 | two `extend` calls on an empty list compute `ScanCode` |
| Scenarios.EvalNeedsWordBoundary | security_scanner.py:6 | `myeval(x)` does not fire the eval rule; `a.eval(x)` does |
| Scenarios.InputHasNoWordBoundary | security_scanner.py:11 | `myinput(` fires the input rule |
| Scenarios.PickleModuleCallMissed | security_scanner.py:10 | `pickle.loads(data)` does not fire the pickle rule |
| Scenarios.ZeroDivisorFlagged | security_scanner.py:24 | `x / 0`, `x // 0` and `x % NaN` are flagged |
| Scenarios.ZeroDivisorFlaggedBeforeMoreDigits | security_scanner.py:24 | `x / 0.0` and `x / 05` are flagged, because the gate has no trailing boundary |
| Scenarios.ZeroDivisorNotFlagged | security_scanner.py:24 | `x / y` and `x / 10` are not flagged |
| Scenarios.BroadExceptOnOneLine | security_scanner.py:12 | `try: run() except: pass` fires the broad-except rule |
| Scenarios.BroadExceptStopsAtNewline | security_scanner.py:12 | a `try:` block whose body line stands between it and `except:` does not fire, because `.*?` stops at the newline |
| Scenarios.BroadExceptAcrossBlankNewline | security_scanner.py:12 | `try:\nexcept:` fires, because `\s*` may take the newline |
| ScanScenarios.NoLeadNoRule | security_scanner.py:38-44 | a line with none of the rules' leading characters yields no rule finding |
| ScanScenarios.SeveralRulesOnOneLine | security_scanner.py:38-44 | `eval(input())` yields the eval finding and then the input finding, both for line 1 |
| ScanScenarios.NoRuleOnDivisionLine | security_scanner.py:38-44 | `x = 1 / 0` fires no rule |
| ScanScenarios.OnlyEvalOnEvalLine | security_scanner.py:38-44 | `eval(s)` yields exactly the eval finding |
| ScanScenarios.DivisorOnlyOnDivisionLine | security_scanner.py:22-29 | `x = 1 / 0` yields the divisor finding and `eval(s)` does not |
| ScanScenarios.RuleBlockBeforeDivisorBlock | security_scanner.py:51-53 | scanning `x = 1 / 0` then `eval(s)` reports line 2's eval finding before line 1's divisor finding |

## Left out

- `load_file`, `generate_report`, `single_file_scan` and `main` (security_scanner.py:56-122) are left out. They do file I/O, console output and the interactive menu. The model takes the lines as a `seq<string>` and returns the findings.
- Chars.IsWord: `\w` is restricted to ASCII letters, digits and `_`. Python's `\w` on `str` also accepts Unicode letters and digits, so `\b` before `eval` is decided differently after a non-ASCII letter.
- Chars.IsSpace lists the whitespace code points of current Unicode versions. The exact set depends on the Python build's Unicode database.
- Finding: `issue` holds the pattern, not the message string. The reported text is `Rules.Message(issue)`, and the per-finding report format is left out with `generate_report`.
- A general regex engine is left out. Only the eight fixed patterns are encoded.
- Rule-compilation errors, configurable rule tables and parallel scanning are left out: the code has none of them.

/** The finding engine: the rule matcher (security_scanner.py:32-45), the zero/NaN
    divisor detector (:15-30) and the orchestrator that joins them (:47-54). Lines are
    numbered from 1, as `enumerate` plus one does. */
module Scanner {
  import opened Text
  import opened Patterns
  import opened Rules

  /** One reported hazard: the 1-based line number, the stripped line, and the pattern
      that fired; the reported message text is `Message(issue)`. */
  datatype Finding = Finding(lineNumber: nat, line: string, issue: Pattern)

  /** Output order of the rule matcher: by line, then by table position. */
  predicate RuleOrder(f: Finding, g: Finding) {
    || f.lineNumber < g.lineNumber
    || (f.lineNumber == g.lineNumber && Rank(f.issue) < Rank(g.issue))
  }

  // ---------------------------------------------------------------------------
  // Rule matcher

  /** Findings for line n (raw text `text`) from the rules at table positions k onward. */
  function RuleFindingsFrom(n: nat, text: string, k: nat): (r: seq<Finding>)
    requires k <= |TableOrder|
    decreases |TableOrder| - k
  {
    if k == |TableOrder| then []
    else
      var rest := RuleFindingsFrom(n, text, k + 1);
      if Search(TableOrder[k], text) then [Finding(n, Strip(text), TableOrder[k])] + rest
      else rest
  }

  /** The findings from rule k on are well formed: at most one per remaining rule,
      each about line n, from a rule at position k or later whose pattern matches. */
  lemma {:induction false} RuleFindingsFromSound(n: nat, text: string, k: nat)
    requires k <= |TableOrder|
    ensures var r := RuleFindingsFrom(n, text, k);
      && |r| <= |TableOrder| - k
      && (forall f | f in r ::
            && f.lineNumber == n
            && f.line == Strip(text)
            && k <= Rank(f.issue) < |TableOrder|
            && Search(f.issue, text))
    decreases |TableOrder| - k
  {
    if k < |TableOrder| {
      RuleFindingsFromSound(n, text, k + 1);
      RankOfTable(k);
    }
  }

  /** The findings from rule k on come in strictly increasing table order. */
  lemma {:induction false} RuleFindingsFromSorted(n: nat, text: string, k: nat)
    requires k <= |TableOrder|
    ensures var r := RuleFindingsFrom(n, text, k);
      forall i, j :: 0 <= i < j < |r| ==> Rank(r[i].issue) < Rank(r[j].issue)
    decreases |TableOrder| - k
  {
    if k < |TableOrder| {
      RuleFindingsFromSorted(n, text, k + 1);
      RuleFindingsFromSound(n, text, k + 1);
      RankOfTable(k);
      var rest := RuleFindingsFrom(n, text, k + 1);
      if Search(TableOrder[k], text) {
        ConsKeepsRankOrder(Finding(n, Strip(text), TableOrder[k]), rest);
      }
    }
  }

  /** A finding ranked below every finding of a rank-ordered list may go in front. */
  lemma ConsKeepsRankOrder(f: Finding, rest: seq<Finding>)
    requires forall g | g in rest :: Rank(f.issue) < Rank(g.issue)
    requires forall i, j :: 0 <= i < j < |rest| ==> Rank(rest[i].issue) < Rank(rest[j].issue)
    ensures forall i, j :: 0 <= i < j < |[f] + rest| ==> Rank(([f] + rest)[i].issue) < Rank(([f] + rest)[j].issue)
  {
    var r := [f] + rest;
    forall i, j | 0 <= i < j < |r|
      ensures Rank(r[i].issue) < Rank(r[j].issue)
    {
      if i == 0 {
        assert r[j] == rest[j - 1] && rest[j - 1] in rest;
      } else {
        assert r[i] == rest[i - 1] && r[j] == rest[j - 1];
      }
    }
  }

  /** No matching rule at position k or later is missed. */
  lemma {:induction false} RuleFindingsFromComplete(n: nat, text: string, k: nat)
    requires k <= |TableOrder|
    ensures forall i :: k <= i < |TableOrder| && Search(TableOrder[i], text) ==>
              Finding(n, Strip(text), TableOrder[i]) in RuleFindingsFrom(n, text, k)
    decreases |TableOrder| - k
  {
    if k < |TableOrder| {
      RuleFindingsFromComplete(n, text, k + 1);
    }
  }

  /** All rule findings for one line, in table order: at most one per rule, each
      quoting the stripped line. Which rules fire is stated by `LineFindingsSound` and
      `LineFindingsComplete`. */
  function LineFindings(n: nat, text: string): (r: seq<Finding>)
    ensures |r| <= |TableOrder|
    ensures forall f | f in r :: f.lineNumber == n && f.line == Strip(text) && f.issue != ZeroDivisor
    ensures forall i, j :: 0 <= i < j < |r| ==> Rank(r[i].issue) < Rank(r[j].issue)
  {
    RuleFindingsFromSound(n, text, 0);
    RuleFindingsFromSorted(n, text, 0);
    RuleFindingsFrom(n, text, 0)
  }

  /** Every rule finding for a line names a pattern that occurs in the line. */
  lemma LineFindingsSound(n: nat, text: string, f: Finding)
    requires f in LineFindings(n, text)
    ensures Occurs(f.issue, text)
  {
    RuleFindingsFromSound(n, text, 0);
    SearchCorrect(f.issue, text);
  }

  /** A rule pattern is reported for a line exactly when it occurs anywhere in the
      line, however often it occurs there. */
  lemma LineFindingsComplete(n: nat, text: string, pat: Pattern)
    requires pat != ZeroDivisor
    ensures Finding(n, Strip(text), pat) in LineFindings(n, text) <==> Occurs(pat, text)
  {
    RuleFindingsFromSound(n, text, 0);
    RuleFindingsFromComplete(n, text, 0);
    SearchCorrect(pat, text);
    assert TableOrder[Rank(pat)] == pat;
  }

  /** `detect_vulnerabilities`: every line in order, every rule in table order. */
  function DetectVulnerabilities(lines: seq<string>): (r: seq<Finding>)
    ensures |r| <= |TableOrder| * |lines|
    ensures forall f | f in r :: 1 <= f.lineNumber <= |lines| && f.issue != ZeroDivisor
    ensures forall i, j :: 0 <= i < j < |r| ==> RuleOrder(r[i], r[j])
  {
    if |lines| == 0 then []
    else
      var n := |lines|;
      var prev := DetectVulnerabilities(lines[..n - 1]);
      var last := LineFindings(n, lines[n - 1]);
      AppendLineKeepsOrder(prev, last, n);
      prev + last
  }

  /** Every rule finding quotes its stripped line and names a pattern that occurs
      in that line. */
  lemma DetectVulnerabilitiesSound(lines: seq<string>, f: Finding)
    ensures f in DetectVulnerabilities(lines) ==>
              && 1 <= f.lineNumber <= |lines|
              && f.line == Strip(lines[f.lineNumber - 1])
              && Occurs(f.issue, lines[f.lineNumber - 1])
  {
    if f in DetectVulnerabilities(lines) {
      DetectVulnerabilitiesFromLine(lines, f);
      LineFindingsSound(f.lineNumber, lines[f.lineNumber - 1], f);
    }
  }

  /** Every rule finding is one the matcher reports for its own line. */
  lemma DetectVulnerabilitiesFromLine(lines: seq<string>, f: Finding)
    requires f in DetectVulnerabilities(lines)
    ensures 1 <= f.lineNumber <= |lines| && f in LineFindings(f.lineNumber, lines[f.lineNumber - 1])
  {
    assert 1 <= f.lineNumber <= |lines|;
    OnLineKeeps(DetectVulnerabilities(lines), f);
    DetectVulnerabilitiesPerLine(lines, f.lineNumber);
  }

  /** Appending the findings of line n, in rank order, to ordered findings of
      earlier lines keeps the whole list ordered. */
  lemma AppendLineKeepsOrder(prev: seq<Finding>, last: seq<Finding>, n: nat)
    requires forall f | f in prev :: f.lineNumber < n
    requires forall i, j :: 0 <= i < j < |prev| ==> RuleOrder(prev[i], prev[j])
    requires forall f | f in last :: f.lineNumber == n
    requires forall i, j :: 0 <= i < j < |last| ==> Rank(last[i].issue) < Rank(last[j].issue)
    ensures forall i, j :: 0 <= i < j < |prev + last| ==> RuleOrder((prev + last)[i], (prev + last)[j])
  {
    var r := prev + last;
    forall i, j | 0 <= i < j < |r|
      ensures RuleOrder(r[i], r[j])
    {
      if j < |prev| {
        assert r[i] == prev[i] && r[j] == prev[j];
      } else if i < |prev| {
        assert r[i] == prev[i] && prev[i] in prev;
        assert r[j] == last[j - |prev|] && last[j - |prev|] in last;
      } else {
        assert r[i] == last[i - |prev|] && r[j] == last[j - |prev|];
      }
    }
  }

  /** The findings of a non-empty listing are those of all but its last line followed
      by those of its last line. */
  lemma DetectVulnerabilitiesLast(lines: seq<string>)
    requires |lines| > 0
    ensures DetectVulnerabilities(lines) == DetectVulnerabilities(lines[..|lines| - 1]) + LineFindings(|lines|, lines[|lines| - 1])
  {
  }

  /** A rule finding is reported for line n and rule pattern `pat` exactly when the
      pattern occurs in that line. */
  lemma DetectVulnerabilitiesComplete(lines: seq<string>, n: nat, pat: Pattern)
    requires 1 <= n <= |lines| && pat != ZeroDivisor
    ensures Finding(n, Strip(lines[n - 1]), pat) in DetectVulnerabilities(lines) <==> Occurs(pat, lines[n - 1])
  {
    var f := Finding(n, Strip(lines[n - 1]), pat);
    if Occurs(pat, lines[n - 1]) {
      DetectVulnerabilitiesReports(lines, n, pat);
    } else if f in DetectVulnerabilities(lines) {
      DetectVulnerabilitiesFromLine(lines, f);
      LineFindingsComplete(n, lines[n - 1], pat);
    }
  }

  /** An occurrence on line n is reported. */
  lemma {:induction false} DetectVulnerabilitiesReports(lines: seq<string>, n: nat, pat: Pattern)
    requires 1 <= n <= |lines| && pat != ZeroDivisor && Occurs(pat, lines[n - 1])
    ensures Finding(n, Strip(lines[n - 1]), pat) in DetectVulnerabilities(lines)
    decreases |lines|
  {
    var m := |lines|;
    DetectVulnerabilitiesLast(lines);
    if n == m {
      LineFindingsComplete(m, lines[m - 1], pat);
    } else {
      assert lines[..m - 1][n - 1] == lines[n - 1];
      DetectVulnerabilitiesReports(lines[..m - 1], n, pat);
    }
  }

  /** The findings of `fs` that are about line n, in their order. */
  function OnLine(fs: seq<Finding>, n: nat): (r: seq<Finding>)
    ensures forall f | f in r :: f in fs && f.lineNumber == n
  {
    if |fs| == 0 then []
    else OnLine(fs[..|fs| - 1], n) + (if fs[|fs| - 1].lineNumber == n then [fs[|fs| - 1]] else [])
  }

  lemma {:induction false} OnLineAppend(a: seq<Finding>, b: seq<Finding>, n: nat)
    ensures OnLine(a + b, n) == OnLine(a, n) + OnLine(b, n)
    decreases |b|
  {
    if |b| == 0 {
      assert a + b == a;
    } else {
      var init, x := b[..|b| - 1], b[|b| - 1];
      var tail := if x.lineNumber == n then [x] else [];
      assert (a + b)[..|a + b| - 1] == a + init;
      assert (a + b)[|a + b| - 1] == x;
      assert OnLine(a + b, n) == OnLine(a + init, n) + tail;
      OnLineAppend(a, init, n);
      assert OnLine(b, n) == OnLine(init, n) + tail;
    }
  }

  /** Selecting the findings about a line keeps every finding about that line. */
  lemma {:induction false} OnLineKeeps(fs: seq<Finding>, f: Finding)
    requires f in fs
    ensures f in OnLine(fs, f.lineNumber)
    decreases |fs|
  {
    var init, x := fs[..|fs| - 1], fs[|fs| - 1];
    assert fs == init + [x];
    if f != x {
      OnLineKeeps(init, f);
    }
  }

  lemma {:induction false} OnLineAll(fs: seq<Finding>, n: nat)
    requires forall f | f in fs :: f.lineNumber == n
    ensures OnLine(fs, n) == fs
    decreases |fs|
  {
    if |fs| > 0 {
      OnLineAll(fs[..|fs| - 1], n);
      assert fs[..|fs| - 1] + [fs[|fs| - 1]] == fs;
    }
  }

  lemma {:induction false} OnLineNone(fs: seq<Finding>, n: nat)
    requires forall f | f in fs :: f.lineNumber != n
    ensures OnLine(fs, n) == []
    decreases |fs|
  {
    if |fs| > 0 {
      OnLineNone(fs[..|fs| - 1], n);
    }
  }

  /** The rule findings for line n are exactly that line's findings, in table order. */
  lemma {:induction false} DetectVulnerabilitiesPerLine(lines: seq<string>, n: nat)
    requires 1 <= n <= |lines|
    ensures OnLine(DetectVulnerabilities(lines), n) == LineFindings(n, lines[n - 1])
    decreases |lines|
  {
    var m := |lines|;
    var prev := DetectVulnerabilities(lines[..m - 1]);
    var last := LineFindings(m, lines[m - 1]);
    assert DetectVulnerabilities(lines) == prev + last;
    OnLineAppend(prev, last, n);
    if n == m {
      OnLineNone(prev, n);
      OnLineAll(last, n);
    } else {
      DetectVulnerabilitiesPerLine(lines[..m - 1], n);
      assert lines[..m - 1][n - 1] == lines[n - 1];
      OnLineNone(last, n);
    }
  }

  // ---------------------------------------------------------------------------
  // Zero/NaN divisor detector

  /** The substring pre-filter of security_scanner.py:22. */
  predicate PreFilter(text: string) {
    '/' in text || Contains(text, "//") || '%' in text
  }

  /** The pre-filter never rejects a line the divisor regex accepts. */
  lemma PreFilterImplied(text: string)
    ensures Occurs(ZeroDivisor, text) ==> PreFilter(text)
  {
    if Occurs(ZeroDivisor, text) {
      var p :| 0 <= p <= |text| && MatchesAt(ZeroDivisor, text, p);
      ZeroDivisorStartsWithOperator(text, p);
    }
  }

  /** Findings of the divisor detector for line n (raw text `text`): both gates. */
  function DivisorFindings(n: nat, text: string): (r: seq<Finding>)
    ensures |r| <= 1
    ensures forall f | f in r :: f == Finding(n, Strip(text), ZeroDivisor)
  {
    if PreFilter(text) && Search(ZeroDivisor, text) then [Finding(n, Strip(text), ZeroDivisor)] else []
  }

  /** The divisor finding is reported for a line exactly when the divisor regex
      occurs in it: the pre-filter never drops a line the regex accepts. */
  lemma DivisorFindingsComplete(n: nat, text: string)
    ensures Finding(n, Strip(text), ZeroDivisor) in DivisorFindings(n, text) <==> Occurs(ZeroDivisor, text)
  {
    SearchCorrect(ZeroDivisor, text);
    PreFilterImplied(text);
  }

  /** `detect_zero_division`: at most one finding per line. */
  function DetectZeroDivision(lines: seq<string>): (r: seq<Finding>)
    ensures |r| <= |lines|
    ensures forall f | f in r :: 1 <= f.lineNumber <= |lines| && f.issue == ZeroDivisor
    ensures forall i, j :: 0 <= i < j < |r| ==> r[i].lineNumber < r[j].lineNumber
  {
    if |lines| == 0 then []
    else
      var n := |lines|;
      var prev := DetectZeroDivision(lines[..n - 1]);
      var last := DivisorFindings(n, lines[n - 1]);
      AppendLineKeepsLineOrder(prev, last, n);
      prev + last
  }

  /** Every divisor finding quotes its stripped line, and the divisor regex occurs in
      that line. */
  lemma DetectZeroDivisionSound(lines: seq<string>, f: Finding)
    requires f in DetectZeroDivision(lines)
    ensures 1 <= f.lineNumber <= |lines|
    ensures f.line == Strip(lines[f.lineNumber - 1]) && Occurs(ZeroDivisor, lines[f.lineNumber - 1])
  {
    DetectZeroDivisionFromLine(lines, f);
    DivisorFindingsComplete(f.lineNumber, lines[f.lineNumber - 1]);
  }

  /** Every divisor finding is one the detector reports for its own line. */
  lemma {:induction false} DetectZeroDivisionFromLine(lines: seq<string>, f: Finding)
    requires f in DetectZeroDivision(lines)
    ensures 1 <= f.lineNumber <= |lines| && f in DivisorFindings(f.lineNumber, lines[f.lineNumber - 1])
    decreases |lines|
  {
    var m := |lines|;
    DetectZeroDivisionLast(lines);
    if f !in DivisorFindings(m, lines[m - 1]) {
      DetectZeroDivisionFromLine(lines[..m - 1], f);
      assert lines[..m - 1][f.lineNumber - 1] == lines[f.lineNumber - 1];
    }
  }

  /** Appending at most one finding of line n to findings of earlier lines in line
      order keeps the whole list in line order. */
  lemma AppendLineKeepsLineOrder(prev: seq<Finding>, last: seq<Finding>, n: nat)
    requires forall f | f in prev :: f.lineNumber < n
    requires forall i, j :: 0 <= i < j < |prev| ==> prev[i].lineNumber < prev[j].lineNumber
    requires |last| <= 1
    requires forall f | f in last :: f.lineNumber == n
    ensures forall i, j :: 0 <= i < j < |prev + last| ==> (prev + last)[i].lineNumber < (prev + last)[j].lineNumber
  {
    var r := prev + last;
    forall i, j | 0 <= i < j < |r|
      ensures r[i].lineNumber < r[j].lineNumber
    {
      if j < |prev| {
        assert r[i] == prev[i] && r[j] == prev[j];
      } else {
        assert r[i] == prev[i] && prev[i] in prev;
        assert r[j] == last[j - |prev|] && last[j - |prev|] in last;
      }
    }
  }

  /** The findings of a non-empty listing are those of all but its last line followed
      by those of its last line. */
  lemma DetectZeroDivisionLast(lines: seq<string>)
    requires |lines| > 0
    ensures DetectZeroDivision(lines) == DetectZeroDivision(lines[..|lines| - 1]) + DivisorFindings(|lines|, lines[|lines| - 1])
  {
  }

  /** A divisor finding is reported for line n exactly when the divisor regex occurs
      in that line: the pre-filter changes nothing. */
  lemma DetectZeroDivisionComplete(lines: seq<string>, n: nat)
    requires 1 <= n <= |lines|
    ensures Finding(n, Strip(lines[n - 1]), ZeroDivisor) in DetectZeroDivision(lines)
            <==> Occurs(ZeroDivisor, lines[n - 1])
  {
    var f := Finding(n, Strip(lines[n - 1]), ZeroDivisor);
    if Occurs(ZeroDivisor, lines[n - 1]) {
      DetectZeroDivisionReports(lines, n);
    } else if f in DetectZeroDivision(lines) {
      DetectZeroDivisionSound(lines, f);
    }
  }

  /** A divisor finding is reported for every line on which the divisor regex occurs:
      the pre-filter never drops one. */
  lemma {:induction false} DetectZeroDivisionReports(lines: seq<string>, n: nat)
    requires 1 <= n <= |lines| && Occurs(ZeroDivisor, lines[n - 1])
    ensures Finding(n, Strip(lines[n - 1]), ZeroDivisor) in DetectZeroDivision(lines)
    decreases |lines|
  {
    var m := |lines|;
    DetectZeroDivisionLast(lines);
    if n == m {
      DivisorFindingsComplete(m, lines[m - 1]);
    } else {
      assert lines[..m - 1][n - 1] == lines[n - 1];
      DetectZeroDivisionReports(lines[..m - 1], n);
    }
  }

  // ---------------------------------------------------------------------------
  // Orchestrator

  /** `scan_code`: all rule findings, then all divisor findings. */
  function ScanCode(lines: seq<string>): (r: seq<Finding>)
    ensures |lines| == 0 ==> r == []
    ensures forall f | f in r :: 1 <= f.lineNumber <= |lines|
    ensures forall i, j :: 0 <= i < j < |r| && r[i].issue == ZeroDivisor ==> r[j].issue == ZeroDivisor
    ensures forall i, j :: 0 <= i < j < |r| && r[j].issue != ZeroDivisor ==> RuleOrder(r[i], r[j])
    ensures forall i, j :: 0 <= i < j < |r| && r[i].issue == ZeroDivisor ==> r[i].lineNumber < r[j].lineNumber
  {
    var rules := DetectVulnerabilities(lines);
    var divisors := DetectZeroDivision(lines);
    BlocksInOrder(rules, divisors);
    rules + divisors
  }

  /** The rule block followed by the divisor block: no divisor finding comes before a
      rule finding, and each block keeps its own order. */
  lemma BlocksInOrder(rules: seq<Finding>, divisors: seq<Finding>)
    requires forall f | f in rules :: f.issue != ZeroDivisor
    requires forall i, j :: 0 <= i < j < |rules| ==> RuleOrder(rules[i], rules[j])
    requires forall f | f in divisors :: f.issue == ZeroDivisor
    requires forall i, j :: 0 <= i < j < |divisors| ==> divisors[i].lineNumber < divisors[j].lineNumber
    ensures var r := rules + divisors;
      && (forall i, j :: 0 <= i < j < |r| && r[i].issue == ZeroDivisor ==> r[j].issue == ZeroDivisor)
      && (forall i, j :: 0 <= i < j < |r| && r[j].issue != ZeroDivisor ==> RuleOrder(r[i], r[j]))
      && (forall i, j :: 0 <= i < j < |r| && r[i].issue == ZeroDivisor ==> r[i].lineNumber < r[j].lineNumber)
  {
    var r := rules + divisors;
    forall i, j | 0 <= i < j < |r|
      ensures r[i].issue == ZeroDivisor ==> r[j].issue == ZeroDivisor && r[i].lineNumber < r[j].lineNumber
      ensures r[j].issue != ZeroDivisor ==> RuleOrder(r[i], r[j])
    {
      if j < |rules| {
        assert r[i] == rules[i] && r[j] == rules[j] && rules[i] in rules;
      } else if i < |rules| {
        assert r[i] == rules[i] && rules[i] in rules;
        assert r[j] == divisors[j - |rules|] && divisors[j - |rules|] in divisors;
      } else {
        assert r[i] == divisors[i - |rules|] && r[j] == divisors[j - |rules|];
      }
    }
  }

  /** Every finding of the scan quotes its stripped line and names a pattern that
      occurs in that line. */
  lemma ScanCodeSound(lines: seq<string>, f: Finding)
    requires f in ScanCode(lines)
    ensures 1 <= f.lineNumber <= |lines|
    ensures f.line == Strip(lines[f.lineNumber - 1]) && Occurs(f.issue, lines[f.lineNumber - 1])
  {
    assert ScanCode(lines) == DetectVulnerabilities(lines) + DetectZeroDivision(lines);
    if f in DetectVulnerabilities(lines) {
      DetectVulnerabilitiesSound(lines, f);
    } else {
      DetectZeroDivisionSound(lines, f);
    }
  }

  /** Per line, the scan reports one finding for each rule pattern that occurs in the
      line and one for the divisor regex if it occurs, and nothing else. */
  lemma ScanCodeComplete(lines: seq<string>, n: nat, pat: Pattern)
    requires 1 <= n <= |lines|
    ensures Finding(n, Strip(lines[n - 1]), pat) in ScanCode(lines) <==> Occurs(pat, lines[n - 1])
  {
    var f := Finding(n, Strip(lines[n - 1]), pat);
    assert ScanCode(lines) == DetectVulnerabilities(lines) + DetectZeroDivision(lines);
    if pat == ZeroDivisor {
      DetectZeroDivisionComplete(lines, n);
      assert f !in DetectVulnerabilities(lines);
    } else {
      DetectVulnerabilitiesComplete(lines, n, pat);
      assert f !in DetectZeroDivision(lines);
    }
  }
}

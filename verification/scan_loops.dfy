/** The scanner as the source writes it: loops over the lines and, for the rule
    matcher, over the rule table, appending to a result list. Each method is proved to
    compute the same sequence as its functional counterpart in `Scanner`. */
module ScanLoops {
  import opened Text
  import opened Patterns
  import opened Rules
  import opened Scanner

  /** The inner loop over the rule table for one line. */
  method LineFindingsLoop(n: nat, text: string) returns (found: seq<Finding>)
    ensures found == LineFindings(n, text)
  {
    found := RuleTableLoop(n, text);
    assert LineFindings(n, text) == RuleFindingsFrom(n, text, 0);
  }

  /** The loop over the rule table proper: one pass, appending each match. */
  method RuleTableLoop(n: nat, text: string) returns (found: seq<Finding>)
    ensures found == RuleFindingsFrom(n, text, 0)
  {
    found := [];
    var k := 0;
    while k < |TableOrder|
      invariant 0 <= k <= |TableOrder|
      invariant found + RuleFindingsFrom(n, text, k) == RuleFindingsFrom(n, text, 0)
    {
      var pat := TableOrder[k];
      var hit := if Search(pat, text) then [Finding(n, Strip(text), pat)] else [];
      var rest := RuleFindingsFrom(n, text, k + 1);
      RuleStep(n, text, k);
      assert RuleFindingsFrom(n, text, k) == hit + rest;
      AppendAssoc(found, hit, rest);
      found := found + hit;
      k := k + 1;
    }
    assert RuleFindingsFrom(n, text, k) == [];
    assert found + [] == found;
  }

  lemma AppendAssoc<T>(a: seq<T>, b: seq<T>, c: seq<T>)
    ensures a + b + c == a + (b + c)
  {
  }

  /** One step of the rule loop: rule k contributes its finding, if it matches, ahead
      of the findings of the later rules. */
  lemma RuleStep(n: nat, text: string, k: nat)
    requires k < |TableOrder|
    ensures RuleFindingsFrom(n, text, k)
         == (if Search(TableOrder[k], text) then [Finding(n, Strip(text), TableOrder[k])] else [])
          + RuleFindingsFrom(n, text, k + 1)
  {
  }

  method DetectVulnerabilitiesLoop(lines: seq<string>) returns (results: seq<Finding>)
    ensures results == DetectVulnerabilities(lines)
  {
    results := [];
    var i := 0;
    while i < |lines|
      invariant 0 <= i <= |lines|
      invariant results == DetectVulnerabilities(lines[..i])
    {
      var found := LineFindingsLoop(i + 1, lines[i]);
      DetectVulnerabilitiesPrefix(lines, i);
      results := results + found;
      i := i + 1;
    }
    assert lines[..|lines|] == lines;
  }

  method DetectZeroDivisionLoop(lines: seq<string>) returns (results: seq<Finding>)
    ensures results == DetectZeroDivision(lines)
  {
    results := [];
    var i := 0;
    while i < |lines|
      invariant 0 <= i <= |lines|
      invariant results == DetectZeroDivision(lines[..i])
    {
      var text := lines[i];
      DetectZeroDivisionPrefix(lines, i);
      if PreFilter(text) {
        if Search(ZeroDivisor, text) {
          results := results + [Finding(i + 1, Strip(text), ZeroDivisor)];
        }
      }
      i := i + 1;
    }
    assert lines[..|lines|] == lines;
  }

  /** Scanning one more line appends that line's rule findings. */
  lemma DetectVulnerabilitiesPrefix(lines: seq<string>, i: nat)
    requires i < |lines|
    ensures DetectVulnerabilities(lines[..i + 1])
         == DetectVulnerabilities(lines[..i]) + LineFindings(i + 1, lines[i])
  {
    assert lines[..i + 1][..i] == lines[..i];
    assert lines[..i + 1][i] == lines[i];
  }

  /** Scanning one more line appends that line's divisor finding, if any. */
  lemma DetectZeroDivisionPrefix(lines: seq<string>, i: nat)
    requires i < |lines|
    ensures DetectZeroDivision(lines[..i + 1])
         == DetectZeroDivision(lines[..i]) + DivisorFindings(i + 1, lines[i])
  {
    assert lines[..i + 1][..i] == lines[..i];
    assert lines[..i + 1][i] == lines[i];
  }

  method ScanCodeLoop(lines: seq<string>) returns (results: seq<Finding>)
    ensures results == ScanCode(lines)
  {
    results := [];
    var rules := DetectVulnerabilitiesLoop(lines);
    results := results + rules;
    assert results == rules;
    var divisors := DetectZeroDivisionLoop(lines);
    results := results + divisors;
  }
}

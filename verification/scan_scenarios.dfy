/** Whole scans of small concrete files: several rules firing on one line, and the
    rule block of a scan coming before the divisor block whatever the line order. */
module ScanScenarios {
  import Chars
  import opened Text
  import opened Patterns
  import opened Rules
  import opened Scanner

  /** A line holding none of the letters the table rules start with yields no rule
      finding. */
  lemma NoLeadNoRule(n: nat, text: string)
    requires forall pat, c | pat != ZeroDivisor && c in Leads(pat) :: c !in text
    ensures LineFindings(n, text) == []
  {
    var r := LineFindings(n, text);
    if r != [] {
      LineFindingsSound(n, text, r[0]);
      AbsentLeads(r[0].issue, text);
    }
  }

  /** A line on which only the `eval` and `input` rules match has those two findings,
      `eval` first. */
  lemma EvalAndInputOnly(n: nat, text: string)
    requires Search(Eval, text) && !Search(Exec, text) && !Search(OsSystem, text)
    requires !Search(Subprocess, text) && !Search(Pickle, text) && Search(Input, text)
    requires !Search(BroadExcept, text)
    ensures LineFindings(n, text) == [Finding(n, Strip(text), Eval), Finding(n, Strip(text), Input)]
  {
    var input := Finding(n, Strip(text), Input);
    assert RuleFindingsFrom(n, text, 6) == [];
    assert RuleFindingsFrom(n, text, 5) == [input];
    assert RuleFindingsFrom(n, text, 4) == [input];
    assert RuleFindingsFrom(n, text, 3) == [input];
    assert RuleFindingsFrom(n, text, 2) == [input];
    assert RuleFindingsFrom(n, text, 1) == [input];
  }

  /** A line on which only the `eval` rule matches has that one finding. */
  lemma EvalOnly(n: nat, text: string)
    requires Search(Eval, text) && !Search(Exec, text) && !Search(OsSystem, text)
    requires !Search(Subprocess, text) && !Search(Pickle, text) && !Search(Input, text)
    requires !Search(BroadExcept, text)
    ensures LineFindings(n, text) == [Finding(n, Strip(text), Eval)]
  {
    assert RuleFindingsFrom(n, text, 6) == [];
    assert RuleFindingsFrom(n, text, 5) == [];
    assert RuleFindingsFrom(n, text, 4) == [];
    assert RuleFindingsFrom(n, text, 3) == [];
    assert RuleFindingsFrom(n, text, 2) == [];
    assert RuleFindingsFrom(n, text, 1) == [];
  }

  /** `exec` cannot match a line without an `x`. */
  lemma ExecNeedsX(s: string)
    requires 'x' !in s
    ensures !Search(Exec, s)
  {
    forall q | 0 <= q <= |s| ensures !MatchesAtExec(Exec, s, q) {
      LitAtChar(s, q, "exec", 1);
    }
    NoMatchFrom(Exec, s, 0);
  }

  lemma PickleMissesEvalInput()
    ensures !Search(Pickle, "eval(input())")
  {
    var s := "eval(input())";
    forall q | 0 <= q <= |s| ensures !MatchesAtExec(Pickle, s, q) {
      LitAtChar(s, q, "pickle", 0);
      LitAtChar(s, q, "pickle", 1);
    }
    NoMatchFrom(Pickle, s, 0);
  }

  lemma BroadExceptMissesEvalInput()
    ensures !Search(BroadExcept, "eval(input())")
  {
    var s := "eval(input())";
    forall q | 0 <= q <= |s| ensures !MatchesAtExec(BroadExcept, s, q) {
      LitAtChar(s, q, "try", 0);
      LitAtChar(s, q, "try", 1);
      assert !LitAt(s, q, "try");
    }
    NoMatchFrom(BroadExcept, s, 0);
  }

  lemma EvalInputMatchesEval()
    ensures Search(Eval, "eval(input())")
  {
    var s := "eval(input())";
    assert s[0..4] == "eval" && s[4] == '(';
    SearchFromComplete(Eval, s, 0, 0);
  }

  lemma EvalInputMatchesInput()
    ensures Search(Input, "eval(input())")
  {
    var s := "eval(input())";
    assert s[5..10] == "input" && s[10] == '(';
    SearchFromComplete(Input, s, 0, 5);
  }

  lemma NoOsSystemInEvalInput()
    ensures !Search(OsSystem, "eval(input())")
  {
    AbsentLeads(OsSystem, "eval(input())");
  }

  lemma NoSubprocessInEvalInput()
    ensures !Search(Subprocess, "eval(input())")
  {
    AbsentLeads(Subprocess, "eval(input())");
  }

  lemma EvalInputUnstripped()
    ensures Strip("eval(input())") == "eval(input())"
  {
    StripUnchanged("eval(input())");
  }

  /** `eval(input())` is reported twice on line 1, once for `eval` and once for
      `input`, in table order. */
  lemma SeveralRulesOnOneLine()
    ensures DetectVulnerabilities(["eval(input())"])
         == [Finding(1, "eval(input())", Eval), Finding(1, "eval(input())", Input)]
  {
    var s := "eval(input())";
    EvalInputMatchesEval();
    EvalInputMatchesInput();
    NoOsSystemInEvalInput();
    NoSubprocessInEvalInput();
    ExecNeedsX(s);
    PickleMissesEvalInput();
    BroadExceptMissesEvalInput();
    EvalInputUnstripped();
    EvalAndInputOnly(1, s);
    assert [s][..0] == [];
  }

  /** No table rule fires on the division line `x = 1 / 0`. */
  lemma NoRuleOnDivisionLine()
    ensures LineFindings(1, "x = 1 / 0") == []
  {
    NoLeadNoRule(1, "x = 1 / 0");
  }

  lemma SubprocessMissesEvalCall()
    ensures !Search(Subprocess, "eval(s)")
  {
    var s := "eval(s)";
    forall q | 0 <= q <= |s| ensures !MatchesAtExec(Subprocess, s, q) {
      LitAtChar(s, q, "subprocess.", 0);
      LitAtChar(s, q, "subprocess.", 1);
    }
    NoMatchFrom(Subprocess, s, 0);
  }

  lemma EvalCallMatches()
    ensures Search(Eval, "eval(s)")
  {
    var s := "eval(s)";
    assert s[0..4] == "eval" && s[4] == '(';
    SearchFromComplete(Eval, s, 0, 0);
  }

  lemma NoOsSystemOrPickleInEvalCall()
    ensures !Search(OsSystem, "eval(s)") && !Search(Pickle, "eval(s)")
  {
    var s := "eval(s)";
    assert !Search(OsSystem, s) by { AbsentLeads(OsSystem, s); }
    AbsentLeads(Pickle, s);
  }

  lemma NoInputOrBroadExceptInEvalCall()
    ensures !Search(Input, "eval(s)") && !Search(BroadExcept, "eval(s)")
  {
    var s := "eval(s)";
    assert !Search(Input, s) by { AbsentLeads(Input, s); }
    AbsentLeads(BroadExcept, s);
  }

  lemma NoDivisorInEvalCall()
    ensures !Search(ZeroDivisor, "eval(s)")
  {
    AbsentLeads(ZeroDivisor, "eval(s)");
  }

  lemma EvalCallUnstripped()
    ensures Strip("eval(s)") == "eval(s)"
  {
    StripUnchanged("eval(s)");
  }

  /** `eval(s)` is reported once, for `eval`. */
  lemma OnlyEvalOnEvalLine()
    ensures LineFindings(2, "eval(s)") == [Finding(2, "eval(s)", Eval)]
  {
    var s := "eval(s)";
    EvalCallMatches();
    NoOsSystemOrPickleInEvalCall();
    NoInputOrBroadExceptInEvalCall();
    ExecNeedsX(s);
    SubprocessMissesEvalCall();
    EvalCallUnstripped();
    EvalOnly(2, s);
  }

  lemma DivisionLineMatches()
    ensures Search(ZeroDivisor, "x = 1 / 0") && PreFilter("x = 1 / 0")
  {
    var a := "x = 1 / 0";
    assert a[6] == '/' && a[7] == ' ' && a[8] == '0';
    assert Skip(a, 7, Chars.Space) == 8;
    assert a[8..9] == "0";
    SearchFromComplete(ZeroDivisor, a, 0, 6);
  }

  /** The divisor rule fires on `x = 1 / 0` and not on `eval(s)`. */
  lemma DivisorOnlyOnDivisionLine()
    ensures DivisorFindings(1, "x = 1 / 0") == [Finding(1, "x = 1 / 0", ZeroDivisor)]
    ensures DivisorFindings(2, "eval(s)") == []
  {
    DivisionLineMatches();
    StripUnchanged("x = 1 / 0");
    NoDivisorInEvalCall();
  }

  /** A scan lists every rule finding before any divisor finding, even when the
      divisor is on an earlier line: the scan of `x = 1 / 0` then `eval(s)` reports
      line 2 first. */
  lemma RuleBlockBeforeDivisorBlock()
    ensures ScanCode(["x = 1 / 0", "eval(s)"])
         == [Finding(2, "eval(s)", Eval), Finding(1, "x = 1 / 0", ZeroDivisor)]
  {
    RulesOfTwoLines();
    DivisorsOfTwoLines();
  }

  lemma RulesOfTwoLines()
    ensures DetectVulnerabilities(["x = 1 / 0", "eval(s)"]) == [Finding(2, "eval(s)", Eval)]
  {
    var lines := ["x = 1 / 0", "eval(s)"];
    NoRuleOnDivisionLine();
    OnlyEvalOnEvalLine();
    assert lines[..1] == ["x = 1 / 0"] && lines[..1][..0] == [];
  }

  lemma DivisorsOfTwoLines()
    ensures DetectZeroDivision(["x = 1 / 0", "eval(s)"]) == [Finding(1, "x = 1 / 0", ZeroDivisor)]
  {
    var lines := ["x = 1 / 0", "eval(s)"];
    DivisorOnlyOnDivisionLine();
    assert lines[..1] == ["x = 1 / 0"] && lines[..1][..0] == [];
  }

}

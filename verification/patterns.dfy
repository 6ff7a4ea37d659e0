/** The eight regular expressions of the scanner, each given twice: as a declarative
    predicate that says what a regex search means (some start position and some way
    of splitting the text among the pattern's pieces), and as an executable greedy
    matcher. `SearchCorrect` proves the two agree on every string. */
module Patterns {
  import opened Chars
  import opened Text

  /** The seven rule patterns (security_scanner.py:6-12) and the divisor gate (:24). */
  datatype Pattern =
    | Eval         // \beval\s*\(
    | Exec         // \bexec\s*\(
    | OsSystem     // \bos\.system\s*\(
    | Subprocess   // \bsubprocess\.\w+\s*\(
    | Pickle       // pickle\s*\(
    | Input        // input\s*\(
    | BroadExcept  // try\s*:\s*.*?except\s*:
    | ZeroDivisor  // (/|//|%)\s*(0|NaN)

  /** `\b` at position p: exactly one of the characters on either side of p is a word
      character, a position outside the string counting as a non-word character. */
  predicate WordBoundary(s: string, p: int) {
    0 <= p <= |s| && ((0 < p && IsWord(s[p - 1])) != (p < |s| && IsWord(s[p])))
  }

  /** `0|NaN` at position j. */
  predicate ZeroOrNaNAt(s: string, j: int) {
    LitAt(s, j, "0") || LitAt(s, j, "NaN")
  }

  // ---------------------------------------------------------------------------
  // Declarative semantics

  ghost predicate CharAt(s: string, j: int, c: char) {
    0 <= j < |s| && s[j] == c
  }

  /** `\s*c` matches starting at i. */
  ghost predicate SpacesThen(s: string, i: int, c: char) {
    exists j :: Run(s, i, j, Space) && CharAt(s, j, c)
  }

  /** `name\s*\(` matches at p, with a leading `\b` when `bounded`. */
  ghost predicate CallAt(s: string, p: int, name: string, bounded: bool) {
    && (bounded ==> WordBoundary(s, p))
    && LitAt(s, p, name)
    && SpacesThen(s, p + |name|, '(')
  }

  /** `\bsubprocess\.\w+\s*\(` matches at p. */
  ghost predicate SubprocessAt(s: string, p: int) {
    && WordBoundary(s, p)
    && LitAt(s, p, "subprocess.")
    && exists j :: p + 11 < j && Run(s, p + 11, j, Word) && SpacesThen(s, j, '(')
  }

  /** `.*?except\s*:` matches starting at i. */
  ghost predicate ExceptTail(s: string, i: int) {
    exists l :: Run(s, i, l, AnyButNewline) && LitAt(s, l, "except") && SpacesThen(s, l + 6, ':')
  }

  /** `:\s*.*?except\s*:` matches at j. */
  ghost predicate ColonTail(s: string, j: int) {
    CharAt(s, j, ':') && exists k :: Run(s, j + 1, k, Space) && ExceptTail(s, k)
  }

  /** `try\s*:\s*.*?except\s*:` matches at p. */
  ghost predicate BroadExceptAt(s: string, p: int) {
    LitAt(s, p, "try") && exists j :: Run(s, p + 3, j, Space) && ColonTail(s, j)
  }

  /** `(/|//|%)` spans s[p..q]. */
  ghost predicate DivOperator(s: string, p: int, q: int) {
    || (LitAt(s, p, "/") && q == p + 1)
    || (LitAt(s, p, "//") && q == p + 2)
    || (LitAt(s, p, "%") && q == p + 1)
  }

  /** `(/|//|%)\s*(0|NaN)` matches at p. */
  ghost predicate ZeroDivisorAt(s: string, p: int) {
    exists q :: DivOperator(s, p, q) && exists j :: Run(s, q, j, Space) && ZeroOrNaNAt(s, j)
  }

  /** A match of `pat` begins at position p of s. */
  ghost predicate MatchesAt(pat: Pattern, s: string, p: int) {
    match pat
    case Eval => CallAt(s, p, "eval", true)
    case Exec => CallAt(s, p, "exec", true)
    case OsSystem => CallAt(s, p, "os.system", true)
    case Subprocess => SubprocessAt(s, p)
    case Pickle => CallAt(s, p, "pickle", false)
    case Input => CallAt(s, p, "input", false)
    case BroadExcept => BroadExceptAt(s, p)
    case ZeroDivisor => ZeroDivisorAt(s, p)
  }

  /** Python's `re.search(pat, s)` succeeds. */
  ghost predicate Occurs(pat: Pattern, s: string) {
    exists p :: 0 <= p <= |s| && MatchesAt(pat, s, p)
  }

  // ---------------------------------------------------------------------------
  // Executable matchers

  /** `\s*c` at i, taking the whitespace greedily. */
  predicate CharAfterSpaces(s: string, i: nat, c: char)
    requires i <= |s|
  {
    var j := Skip(s, i, Space);
    j < |s| && s[j] == c
  }

  predicate CallAtExec(s: string, p: nat, name: string, bounded: bool)
    requires p <= |s|
  {
    && (bounded ==> WordBoundary(s, p))
    && LitAt(s, p, name)
    && CharAfterSpaces(s, p + |name|, '(')
  }

  predicate SubprocessAtExec(s: string, p: nat)
    requires p <= |s|
  {
    && WordBoundary(s, p)
    && LitAt(s, p, "subprocess.")
    && var j := Skip(s, p + 11, Word);
       p + 11 < j && CharAfterSpaces(s, j, '(')
  }

  /** The lazy `.*?` before `except\s*:`: try the tail at k, else consume one more
      non-newline character. */
  predicate ExceptFrom(s: string, k: nat)
    requires k <= |s|
    decreases |s| - k
  {
    || (LitAt(s, k, "except") && CharAfterSpaces(s, k + 6, ':'))
    || (k < |s| && s[k] != '\n' && ExceptFrom(s, k + 1))
  }

  predicate BroadExceptAtExec(s: string, p: nat)
    requires p <= |s|
  {
    && LitAt(s, p, "try")
    && var j := Skip(s, p + 3, Space);
       j < |s| && s[j] == ':' && ExceptFrom(s, Skip(s, j + 1, Space))
  }

  /** The divisor gate at p through its one-character operators; a `//` match is
      found one position later through its second `/`. */
  predicate ZeroDivisorAtExec(s: string, p: nat)
    requires p <= |s|
  {
    p < |s| && (s[p] == '/' || s[p] == '%') && ZeroOrNaNAt(s, Skip(s, p + 1, Space))
  }

  predicate MatchesAtExec(pat: Pattern, s: string, p: nat)
    requires p <= |s|
  {
    match pat
    case Eval => CallAtExec(s, p, "eval", true)
    case Exec => CallAtExec(s, p, "exec", true)
    case OsSystem => CallAtExec(s, p, "os.system", true)
    case Subprocess => SubprocessAtExec(s, p)
    case Pickle => CallAtExec(s, p, "pickle", false)
    case Input => CallAtExec(s, p, "input", false)
    case BroadExcept => BroadExceptAtExec(s, p)
    case ZeroDivisor => ZeroDivisorAtExec(s, p)
  }

  /** Try every start position from p on, left to right. */
  predicate SearchFrom(pat: Pattern, s: string, p: nat)
    requires p <= |s|
    decreases |s| - p
  {
    MatchesAtExec(pat, s, p) || (p < |s| && SearchFrom(pat, s, p + 1))
  }

  predicate Search(pat: Pattern, s: string) {
    SearchFrom(pat, s, 0)
  }

  // ---------------------------------------------------------------------------
  // Agreement of the two

  /** `\s*c` for a non-space c: the only split that can work is the greedy one. */
  lemma SpacesThenGreedy(s: string, i: nat, c: char)
    requires i <= |s| && !IsSpace(c)
    ensures SpacesThen(s, i, c) <==> CharAfterSpaces(s, i, c)
  {
    if SpacesThen(s, i, c) {
      var j :| Run(s, i, j, Space) && CharAt(s, j, c);
      RunStopsAtSkip(s, i, j, Space);
    }
    if CharAfterSpaces(s, i, c) {
      assert Run(s, i, Skip(s, i, Space), Space) && CharAt(s, Skip(s, i, Space), c);
    }
  }

  lemma CallAtAgrees(s: string, p: nat, name: string, bounded: bool)
    requires p <= |s|
    ensures CallAt(s, p, name, bounded) <==> CallAtExec(s, p, name, bounded)
  {
    if LitAt(s, p, name) {
      SpacesThenGreedy(s, p + |name|, '(');
    }
  }

  /** `\w+\s*\(`: giving back word characters never helps, since the character after a
      shorter run is a word character, which is neither whitespace nor `(`. */
  lemma SubprocessAtAgrees(s: string, p: nat)
    requires p <= |s|
    ensures SubprocessAt(s, p) <==> SubprocessAtExec(s, p)
  {
    if WordBoundary(s, p) && LitAt(s, p, "subprocess.") {
      var q := p + 11;
      var m := Skip(s, q, Word);
      if SubprocessAt(s, p) {
        var j :| q < j && Run(s, q, j, Word) && SpacesThen(s, j, '(');
        RunWithinSkip(s, q, j, Word);
        if j < m {
          assert IsWord(s[j]);
          var k :| Run(s, j, k, Space) && CharAt(s, k, '(');
          if j < k {
            SpaceIsNotWord(s[j]);
          }
        }
        SpacesThenGreedy(s, m, '(');
      }
      if SubprocessAtExec(s, p) {
        SpacesThenGreedy(s, m, '(');
      }
    }
  }

  lemma ExceptFromSound(s: string, k: nat)
    requires k <= |s| && ExceptFrom(s, k)
    ensures ExceptTail(s, k)
    decreases |s| - k
  {
    if LitAt(s, k, "except") && CharAfterSpaces(s, k + 6, ':') {
      SpacesThenGreedy(s, k + 6, ':');
      assert Run(s, k, k, AnyButNewline);
    } else {
      ExceptFromSound(s, k + 1);
      var l :| Run(s, k + 1, l, AnyButNewline) && LitAt(s, l, "except") && SpacesThen(s, l + 6, ':');
      assert Run(s, k, l, AnyButNewline);
    }
  }

  lemma {:induction false} ExceptFromComplete(s: string, k: nat, l: int)
    requires k <= |s|
    requires Run(s, k, l, AnyButNewline) && LitAt(s, l, "except") && SpacesThen(s, l + 6, ':')
    ensures ExceptFrom(s, k)
    decreases l - k
  {
    if k == l {
      SpacesThenGreedy(s, l + 6, ':');
    } else {
      assert s[k] != '\n' by { assert InClass(AnyButNewline, s[k]); }
      ExceptFromComplete(s, k + 1, l);
    }
  }

  /** The lazy `.*?` may start anywhere inside the whitespace that `\s*` could take;
      starting it after all of that whitespace loses nothing, because `except` does
      not begin with whitespace. */
  lemma ExceptAfterSpaces(s: string, i: nat)
    requires i <= |s|
    ensures (exists k :: Run(s, i, k, Space) && ExceptTail(s, k)) <==> ExceptFrom(s, Skip(s, i, Space))
  {
    var m := Skip(s, i, Space);
    if exists k :: Run(s, i, k, Space) && ExceptTail(s, k) {
      var k :| Run(s, i, k, Space) && ExceptTail(s, k);
      RunWithinSkip(s, i, k, Space);
      var l :| Run(s, k, l, AnyButNewline) && LitAt(s, l, "except") && SpacesThen(s, l + 6, ':');
      assert !InClass(Space, s[l]) by {
        assert s[l] == s[l..l + 6][0];
      }
      assert Run(s, m, l, AnyButNewline);
      ExceptFromComplete(s, m, l);
    }
    if ExceptFrom(s, m) {
      ExceptFromSound(s, m);
      assert Run(s, i, m, Space) && ExceptTail(s, m);
    }
  }

  lemma BroadExceptAtAgrees(s: string, p: nat)
    requires p <= |s|
    ensures BroadExceptAt(s, p) <==> BroadExceptAtExec(s, p)
  {
    if BroadExceptAt(s, p) {
      BroadExceptAtComplete(s, p);
    }
    if BroadExceptAtExec(s, p) {
      BroadExceptAtSound(s, p);
    }
  }

  lemma BroadExceptAtComplete(s: string, p: nat)
    requires p <= |s| && BroadExceptAt(s, p)
    ensures BroadExceptAtExec(s, p)
  {
    var j :| Run(s, p + 3, j, Space) && ColonTail(s, j);
    assert s[j] == ':';
    assert j == Skip(s, p + 3, Space) by {
      RunStopsAtSkip(s, p + 3, j, Space);
    }
    assert ExceptFrom(s, Skip(s, j + 1, Space)) by {
      ExceptAfterSpaces(s, j + 1);
    }
  }

  lemma BroadExceptAtSound(s: string, p: nat)
    requires p <= |s| && BroadExceptAtExec(s, p)
    ensures BroadExceptAt(s, p)
  {
    var j := Skip(s, p + 3, Space);
    ExceptAfterSpaces(s, j + 1);
    assert ColonTail(s, j);
    assert Run(s, p + 3, j, Space);
  }

  lemma ZeroDivisorAtExecSound(s: string, p: nat)
    requires p <= |s| && ZeroDivisorAtExec(s, p)
    ensures ZeroDivisorAt(s, p)
  {
    var j := Skip(s, p + 1, Space);
    assert DivOperator(s, p, p + 1) by {
      assert s[p..p + 1] == [s[p]];
    }
    assert Run(s, p + 1, j, Space) && ZeroOrNaNAt(s, j);
  }

  /** A declarative divisor match at p is found by the executable gate at p, or at
      p + 1 when the operator taken was `//`. */
  lemma ZeroDivisorAtComplete(s: string, p: nat)
    requires p <= |s| && ZeroDivisorAt(s, p)
    ensures ZeroDivisorAtExec(s, p) || (p < |s| && ZeroDivisorAtExec(s, p + 1))
  {
    var q :| DivOperator(s, p, q) && exists j :: Run(s, q, j, Space) && ZeroOrNaNAt(s, j);
    var j :| Run(s, q, j, Space) && ZeroOrNaNAt(s, j);
    assert s[j] == '0' || s[j] == 'N' by {
      if LitAt(s, j, "0") { assert s[j..j + 1][0] == s[j]; } else { assert s[j..j + 3][0] == s[j]; }
    }
    RunStopsAtSkip(s, q, j, Space);
    if LitAt(s, p, "//") && q == p + 2 {
      assert s[p + 1] == s[p..p + 2][1];
    } else {
      assert s[p] == s[p..p + 1][0];
    }
  }

  lemma MatchesAtSound(pat: Pattern, s: string, p: nat)
    requires p <= |s| && MatchesAtExec(pat, s, p)
    ensures MatchesAt(pat, s, p)
  {
    match pat
    case Eval => CallAtAgrees(s, p, "eval", true);
    case Exec => CallAtAgrees(s, p, "exec", true);
    case OsSystem => CallAtAgrees(s, p, "os.system", true);
    case Subprocess => SubprocessAtAgrees(s, p);
    case Pickle => CallAtAgrees(s, p, "pickle", false);
    case Input => CallAtAgrees(s, p, "input", false);
    case BroadExcept => BroadExceptAtAgrees(s, p);
    case ZeroDivisor => ZeroDivisorAtExecSound(s, p);
  }

  lemma MatchesAtComplete(pat: Pattern, s: string, p: nat)
    requires p <= |s| && MatchesAt(pat, s, p)
    ensures MatchesAtExec(pat, s, p) || (p < |s| && MatchesAtExec(pat, s, p + 1))
  {
    match pat
    case Eval => CallAtAgrees(s, p, "eval", true);
    case Exec => CallAtAgrees(s, p, "exec", true);
    case OsSystem => CallAtAgrees(s, p, "os.system", true);
    case Subprocess => SubprocessAtAgrees(s, p);
    case Pickle => CallAtAgrees(s, p, "pickle", false);
    case Input => CallAtAgrees(s, p, "input", false);
    case BroadExcept => BroadExceptAtAgrees(s, p);
    case ZeroDivisor => ZeroDivisorAtComplete(s, p);
  }

  lemma {:induction false} SearchFromSound(pat: Pattern, s: string, p: nat)
    requires p <= |s| && SearchFrom(pat, s, p)
    ensures exists p' :: p <= p' <= |s| && MatchesAt(pat, s, p')
    decreases |s| - p
  {
    if MatchesAtExec(pat, s, p) {
      MatchesAtSound(pat, s, p);
    } else {
      SearchFromSound(pat, s, p + 1);
    }
  }

  lemma {:induction false} SearchFromComplete(pat: Pattern, s: string, p: nat, p': nat)
    requires p <= p' <= |s|
    requires MatchesAtExec(pat, s, p')
    ensures SearchFrom(pat, s, p)
    decreases p' - p
  {
    if p < p' {
      SearchFromComplete(pat, s, p + 1, p');
    }
  }

  /** The executable search and the regex semantics agree on every string. */
  lemma SearchCorrect(pat: Pattern, s: string)
    ensures Search(pat, s) <==> Occurs(pat, s)
  {
    if Search(pat, s) {
      SearchFromSound(pat, s, 0);
    }
    if Occurs(pat, s) {
      OccursIsFound(pat, s);
    }
  }

  lemma OccursIsFound(pat: Pattern, s: string)
    requires Occurs(pat, s)
    ensures Search(pat, s)
  {
    var p :| 0 <= p <= |s| && MatchesAt(pat, s, p);
    MatchesAtComplete(pat, s, p);
    if MatchesAtExec(pat, s, p) {
      SearchFromComplete(pat, s, 0, p);
    } else {
      SearchFromComplete(pat, s, 0, p + 1);
    }
  }

  /** A divisor match starts at a `/` or a `%`. */
  lemma ZeroDivisorStartsWithOperator(s: string, p: int)
    requires ZeroDivisorAt(s, p)
    ensures 0 <= p < |s| && (s[p] == '/' || s[p] == '%')
  {
    var q :| DivOperator(s, p, q) && exists j :: Run(s, q, j, Space) && ZeroOrNaNAt(s, j);
    if LitAt(s, p, "//") && q == p + 2 {
      assert s[p] == s[p..p + 2][0];
    } else {
      assert s[p] == s[p..p + 1][0];
    }
  }

  /** A search from p fails when no position from p on starts a match. */
  lemma {:induction false} NoMatchFrom(pat: Pattern, s: string, p: nat)
    requires p <= |s|
    requires forall q :: p <= q <= |s| ==> !MatchesAtExec(pat, s, q)
    ensures !SearchFrom(pat, s, p)
    decreases |s| - p
  {
    if p < |s| {
      NoMatchFrom(pat, s, p + 1);
    }
  }

  /** The characters a match of each pattern can start with. */
  function Leads(pat: Pattern): set<char> {
    match pat
    case Eval => {'e'}
    case Exec => {'e'}
    case OsSystem => {'o'}
    case Subprocess => {'s'}
    case Pickle => {'p'}
    case Input => {'i'}
    case BroadExcept => {'t'}
    case ZeroDivisor => {'/', '%'}
  }

  /** Every match starts with one of the pattern's leading characters. */
  lemma MatchStartsWithLead(pat: Pattern, s: string, p: nat)
    requires p <= |s| && MatchesAtExec(pat, s, p)
    ensures p < |s| && s[p] in Leads(pat)
  {
    match pat
    case Eval => LitAtChar(s, p, "eval", 0);
    case Exec => LitAtChar(s, p, "exec", 0);
    case OsSystem => LitAtChar(s, p, "os.system", 0);
    case Subprocess => LitAtChar(s, p, "subprocess.", 0);
    case Pickle => LitAtChar(s, p, "pickle", 0);
    case Input => LitAtChar(s, p, "input", 0);
    case BroadExcept => LitAtChar(s, p, "try", 0);
    case ZeroDivisor =>
  }

  /** A line without any of a pattern's leading characters never matches it. */
  lemma AbsentLeads(pat: Pattern, s: string)
    requires forall c | c in Leads(pat) :: c !in s
    ensures !Search(pat, s) && !Occurs(pat, s)
  {
    forall q | 0 <= q <= |s| ensures !MatchesAtExec(pat, s, q) {
      if MatchesAtExec(pat, s, q) {
        MatchStartsWithLead(pat, s, q);
      }
    }
    NotFound(pat, s);
    SearchCorrect(pat, s);
  }

  /** No start position matches, so the pattern does not occur. */
  lemma NotFound(pat: Pattern, s: string)
    requires forall q :: 0 <= q <= |s| ==> !MatchesAtExec(pat, s, q)
    ensures !Occurs(pat, s)
  {
    NoMatchFrom(pat, s, 0);
    SearchCorrect(pat, s);
  }

  /** One matching start position is enough for the pattern to occur. */
  lemma Found(pat: Pattern, s: string, q: nat)
    requires q <= |s| && MatchesAtExec(pat, s, q)
    ensures Occurs(pat, s)
  {
    MatchesAtSound(pat, s, q);
  }
}

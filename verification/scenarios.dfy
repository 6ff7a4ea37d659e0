/** Concrete lines and what the scanner does with them: the word-boundary and
    prefix-only behaviour of the patterns, the one-line reach of the broad-except rule,
    several rules on one line, and the order of the two blocks of a scan. */
module Scenarios {
  import opened Text
  import opened Patterns
  import opened Rules
  import opened Scanner

  /** `\beval` needs a non-word character (or nothing) before `eval`. */
  lemma EvalNeedsWordBoundary()
    ensures !Occurs(Eval, "myeval(x)")
    ensures Occurs(Eval, "a.eval(x)")
  {
    var s := "myeval(x)";
    forall q | 0 <= q <= |s| ensures !MatchesAtExec(Eval, s, q) {
      LitAtChar(s, q, "eval", 0);
    }
    NotFound(Eval, s);
    var t := "a.eval(x)";
    assert t[2..6] == "eval";
    Found(Eval, t, 2);
  }

  /** `input\s*\(` has no `\b`, so it fires inside a longer name. */
  lemma InputHasNoWordBoundary()
    ensures Occurs(Input, "myinput(")
  {
    var s := "myinput(";
    assert s[2..7] == "input";
    Found(Input, s, 2);
  }

  /** `pickle\s*\(` needs `(` right after `pickle`, so a module-qualified call is missed. */
  lemma PickleModuleCallMissed()
    ensures !Occurs(Pickle, "pickle.loads(data)")
  {
    var s := "pickle.loads(data)";
    forall q | 0 <= q <= |s| ensures !MatchesAtExec(Pickle, s, q) {
      LitAtChar(s, q, "pickle", 0);
    }
    NotFound(Pickle, s);
  }

  /** The divisor gate looks only at what follows the operator: `0` or `NaN` after
      optional whitespace, with nothing required after that. */
  lemma ZeroDivisorFlagged()
    ensures Occurs(ZeroDivisor, "x / 0")
    ensures Occurs(ZeroDivisor, "x // 0")
    ensures Occurs(ZeroDivisor, "x % NaN")
  {
    assert Occurs(ZeroDivisor, "x / 0") by {
      Found(ZeroDivisor, "x / 0", 2);
    }
    assert Occurs(ZeroDivisor, "x // 0") by {
      Found(ZeroDivisor, "x // 0", 3);
    }
    var s := "x % NaN";
    assert s[4..7] == "NaN";
    Found(ZeroDivisor, s, 2);
  }

  /** Nothing has to follow the `0`: a float zero and a number with a leading zero are
      flagged as well. */
  lemma ZeroDivisorFlaggedBeforeMoreDigits()
    ensures Occurs(ZeroDivisor, "x / 0.0")
    ensures Occurs(ZeroDivisor, "x / 05")
  {
    assert Occurs(ZeroDivisor, "x / 0.0") by {
      Found(ZeroDivisor, "x / 0.0", 2);
    }
    Found(ZeroDivisor, "x / 05", 2);
  }

  /** A divisor that is a name, or a number that does not start with 0, is not flagged. */
  lemma ZeroDivisorNotFlagged()
    ensures !Occurs(ZeroDivisor, "x / y")
    ensures !Occurs(ZeroDivisor, "x / 10")
  {
    assert !Occurs(ZeroDivisor, "x / y") by {
      var s := "x / y";
      forall q | 0 <= q <= |s| ensures !MatchesAtExec(ZeroDivisor, s, q) {
        if q < |s| && (s[q] == '/' || s[q] == '%') {
          assert q == 2 && Skip(s, 3, Chars.Space) == 4;
          LitAtChar(s, 4, "NaN", 0);
          LitAtChar(s, 4, "0", 0);
        }
      }
      NotFound(ZeroDivisor, s);
    }
    assert !Occurs(ZeroDivisor, "x / 10") by {
      var s := "x / 10";
      forall q | 0 <= q <= |s| ensures !MatchesAtExec(ZeroDivisor, s, q) {
        if q < |s| && (s[q] == '/' || s[q] == '%') {
          assert q == 2 && Skip(s, 3, Chars.Space) == 4;
          LitAtChar(s, 4, "NaN", 0);
          LitAtChar(s, 4, "0", 0);
        }
      }
      NotFound(ZeroDivisor, s);
    }
  }

  /** `try:` and `except:` on one line fire the broad-except rule. */
  lemma BroadExceptOnOneLine()
    ensures Occurs(BroadExcept, "try: run() except: pass")
  {
    var s := "try: run() except: pass";
    ExceptAfterRun();
    assert ColonTail(s, 3) by {
      assert Run(s, 4, 5, Chars.Space);
    }
    assert s[0..3] == "try" && Run(s, 3, 3, Chars.Space);
    assert MatchesAt(BroadExcept, s, 0);
  }

  /** The `.*?except\s*:` part matches after `try: `, the `.*?` taking `run() `. */
  lemma ExceptAfterRun()
    ensures ExceptTail("try: run() except: pass", 5)
  {
    var s := "try: run() except: pass";
    assert Run(s, 5, 11, Chars.AnyButNewline);
    assert s[11..17] == "except";
    assert Run(s, 17, 17, Chars.Space) && CharAt(s, 17, ':');
  }

  /** The lazy `.*?` cannot pass a newline, so `try:` and `except:` separated by a line
      of code do not fire the rule even within one string. */
  lemma BroadExceptStopsAtNewline()
    ensures !Occurs(BroadExcept, "try:\n  x = 1\nexcept:")
  {
    var s := "try:\n  x = 1\nexcept:";
    forall q | 0 <= q <= |s| ensures !MatchesAtExec(BroadExcept, s, q) {
      if q == 0 {
        NoExceptBeforeNewline();
      } else {
        LitAtChar(s, q, "try", 0);
        assert !LitAt(s, q, "try");
      }
    }
    NotFound(BroadExcept, s);
  }

  /** The `.*?` of the line above, started after the whitespace, meets the newline
      before any `except`. */
  lemma NoExceptBeforeNewline()
    ensures !MatchesAtExec(BroadExcept, "try:\n  x = 1\nexcept:", 0)
  {
    var s := "try:\n  x = 1\nexcept:";
    assert s[3] == ':' && !Chars.IsSpace(s[3]);
    assert Skip(s, 3, Chars.Space) == 3;
    assert Skip(s, 4, Chars.Space) == 7 by {
      assert Skip(s, 6, Chars.Space) == 7;
    }
    NoExceptOnCodeLine();
  }

  /** From the start of `x = 1` the `.*?` meets the newline before any `except`. */
  lemma NoExceptOnCodeLine()
    ensures !ExceptFrom("try:\n  x = 1\nexcept:", 7)
  {
    var s := "try:\n  x = 1\nexcept:";
    LitAtChar(s, 12, "except", 0);
    assert !ExceptFrom(s, 12);
    LitAtChar(s, 11, "except", 0);
    assert !ExceptFrom(s, 11);
    LitAtChar(s, 10, "except", 0);
    assert !ExceptFrom(s, 10);
    LitAtChar(s, 9, "except", 0);
    assert !ExceptFrom(s, 9);
    LitAtChar(s, 8, "except", 0);
    assert !ExceptFrom(s, 8);
    LitAtChar(s, 7, "except", 0);
  }

  /** The `\s*` pieces, unlike `.*?`, do cross a newline: whitespace-only text between
      `try:` and `except:` lets the rule fire across it. */
  lemma BroadExceptAcrossBlankNewline()
    ensures Occurs(BroadExcept, "try:\nexcept:")
  {
    var s := "try:\nexcept:";
    assert ExceptTail(s, 5) by {
      assert Run(s, 5, 5, Chars.AnyButNewline);
      assert s[5..11] == "except";
      assert Run(s, 11, 11, Chars.Space) && CharAt(s, 11, ':');
    }
    assert ColonTail(s, 3) by {
      assert Run(s, 4, 5, Chars.Space);
    }
    assert s[0..3] == "try" && Run(s, 3, 3, Chars.Space);
    assert MatchesAt(BroadExcept, s, 0);
  }
}

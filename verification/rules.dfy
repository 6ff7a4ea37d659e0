/** The rule table (security_scanner.py:5-13) and the messages the scanner reports. */
module Rules {
  import opened Patterns

  /** The message reported for a pattern: the rule's message for the seven table
      patterns, and the divisor detector's constant message for `ZeroDivisor`. */
  function Message(pat: Pattern): string {
    match pat
    case Eval => "Use of eval() allows arbitrary code execution and is unsafe."
    case Exec => "Use of exec() can execute arbitrary code and poses a security risk."
    case OsSystem => "os.system() can lead to command injection vulnerabilities."
    case Subprocess => "Improper use of subprocess functions can lead to command injection."
    case Pickle => "Using pickle can execute arbitrary code if the data is untrusted."
    case Input => "Unvalidated input() can lead to security vulnerabilities."
    case BroadExcept => "Broad try-except blocks can mask critical errors."
    case ZeroDivisor => "Potential zero-division or invalid operation detected."
  }

  /** The rule table: its patterns in insertion order, which is the order they are
      tried in; the message of each is `Message(pattern)`. */
  const TableOrder: seq<Pattern> := [Eval, Exec, OsSystem, Subprocess, Pickle, Input, BroadExcept]

  /** Table position of a rule pattern; `|TableOrder|` for the divisor pattern, which is
      not in the table. */
  function Rank(pat: Pattern): (r: nat)
    ensures r <= |TableOrder|
    ensures r < |TableOrder| <==> pat != ZeroDivisor
    ensures r < |TableOrder| ==> TableOrder[r] == pat
  {
    match pat
    case Eval => 0
    case Exec => 1
    case OsSystem => 2
    case Subprocess => 3
    case Pickle => 4
    case Input => 5
    case BroadExcept => 6
    case ZeroDivisor => 7
  }

  /** Each table position holds a distinct pattern, found again by `Rank`. */
  lemma RankOfTable(k: nat)
    requires k < |TableOrder|
    ensures Rank(TableOrder[k]) == k
  {
  }

  /** Lengths of the eight messages, indexed by `Rank`. */
  const MessageLengths: seq<nat> := [60, 67, 58, 67, 65, 57, 49, 54]

  lemma MessageLength(p: Pattern)
    ensures |Message(p)| == MessageLengths[Rank(p)]
  {
    match p
    case Eval | Exec => MessageLengthEvalExec(p);
    case OsSystem | Subprocess => MessageLengthOsSystemSubprocess(p);
    case Pickle | Input => MessageLengthPickleInput(p);
    case BroadExcept | ZeroDivisor => MessageLengthBroadExceptZeroDivisor(p);
  }

  lemma MessageLengthEvalExec(p: Pattern)
    requires p == Eval || p == Exec
    ensures |Message(p)| == MessageLengths[Rank(p)]
  {
    if p == Eval {
    }
  }

  lemma MessageLengthOsSystemSubprocess(p: Pattern)
    requires p == OsSystem || p == Subprocess
    ensures |Message(p)| == MessageLengths[Rank(p)]
  {
    if p == OsSystem {
    }
  }

  lemma MessageLengthPickleInput(p: Pattern)
    requires p == Pickle || p == Input
    ensures |Message(p)| == MessageLengths[Rank(p)]
  {
    if p == Pickle {
    }
  }

  lemma MessageLengthBroadExceptZeroDivisor(p: Pattern)
    requires p == BroadExcept || p == ZeroDivisor
    ensures |Message(p)| == MessageLengths[Rank(p)]
  {
    if p == BroadExcept {
    }
  }

  /** The exec and subprocess messages have the same length; they differ in their
      next-to-last character. */
  lemma ExecSubprocessMessagesDiffer()
    ensures Message(Exec) != Message(Subprocess)
  {
    var a, b := Message(Exec), Message(Subprocess);
    assert a[|a| - 2] != b[|b| - 2];
  }

  /** No two patterns share a message, so the message text of a finding tells which
      rule (or the divisor detector) produced it. The messages differ in length, except
      those of exec and subprocess. */
  lemma MessageInjective(p: Pattern, q: Pattern)
    ensures Message(p) == Message(q) ==> p == q
  {
    if p != q {
      if (p == Exec && q == Subprocess) || (p == Subprocess && q == Exec) {
        ExecSubprocessMessagesDiffer();
      } else {
        MessageLengthsDiffer(p, q);
      }
    }
  }

  lemma MessageLengthsDiffer(p: Pattern, q: Pattern)
    requires p != q
    requires !((p == Exec && q == Subprocess) || (p == Subprocess && q == Exec))
    ensures |Message(p)| != |Message(q)|
  {
    MessageLength(p);
    MessageLength(q);
    LengthsDiffer(p, q);
  }

  lemma LengthsDiffer(p: Pattern, q: Pattern)
    requires p != q
    requires !((p == Exec && q == Subprocess) || (p == Subprocess && q == Exec))
    ensures MessageLengths[Rank(p)] != MessageLengths[Rank(q)]
  {
  }
}

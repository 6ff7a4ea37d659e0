/** Positions, literal occurrences, runs of a character class, and Python's `str.strip`. */
module Text {
  import opened Chars

  /** The literal `w` occurs in `s` starting at position `p`. */
  predicate LitAt(s: string, p: int, w: string) {
    0 <= p && p + |w| <= |s| && s[p..p + |w|] == w
  }

  /** The literal `w` occurs somewhere in `s` (Python's `w in s`). */
  predicate Contains(s: string, w: string) {
    exists p | 0 <= p <= |s| - |w| :: LitAt(s, p, w)
  }

  /** Every character of `s[i..j]` is in class `cls`: what `cls*` may consume from i to j. */
  ghost predicate Run(s: string, i: int, j: int, cls: CharClass) {
    0 <= i <= j <= |s| && forall k :: i <= k < j ==> InClass(cls, s[k])
  }

  /** Greedy repetition: the end of the longest run of class `cls` starting at `i`. */
  function Skip(s: string, i: nat, cls: CharClass): (j: nat)
    requires i <= |s|
    ensures Run(s, i, j, cls)
    ensures j == |s| || !InClass(cls, s[j])
    decreases |s| - i
  {
    if i == |s| || !InClass(cls, s[i]) then i else Skip(s, i + 1, cls)
  }

  /** Any run of `cls` from `i` ends at or before the greedy end. */
  lemma RunWithinSkip(s: string, i: nat, j: int, cls: CharClass)
    requires i <= |s|
    requires Run(s, i, j, cls)
    ensures j <= Skip(s, i, cls)
  {
  }

  /** A run of `cls` followed by a character outside `cls` is exactly the greedy run. */
  lemma RunStopsAtSkip(s: string, i: nat, j: int, cls: CharClass)
    requires i <= |s|
    requires Run(s, i, j, cls)
    requires j < |s| && !InClass(cls, s[j])
    ensures j == Skip(s, i, cls)
  {
    RunWithinSkip(s, i, j, cls);
  }

  /** The end of `s` once trailing whitespace down to `lo` is removed. */
  function TrimEnd(s: string, lo: nat, hi: nat): (b: nat)
    requires lo <= hi <= |s|
    ensures lo <= b <= hi
    ensures Run(s, b, hi, Space)
    ensures b == lo || !IsSpace(s[b - 1])
    decreases hi
  {
    if hi == lo || !IsSpace(s[hi - 1]) then hi else TrimEnd(s, lo, hi - 1)
  }

  /** `r` is `s` with all leading and trailing whitespace removed. */
  ghost predicate IsStripOf(r: string, s: string) {
    exists a, b ::
      && 0 <= a <= b <= |s|
      && r == s[a..b]
      && Run(s, 0, a, Space)
      && Run(s, b, |s|, Space)
      && (r == [] || (!IsSpace(r[0]) && !IsSpace(r[|r| - 1])))
  }

  /** Python's `str.strip()` with no argument. */
  function Strip(s: string): (r: string)
    ensures |r| <= |s|
  {
    var a := Skip(s, 0, Space);
    s[a..TrimEnd(s, a, |s|)]
  }

  /** `Strip` does strip: it drops a whitespace prefix and a whitespace suffix and
      keeps no whitespace at either end. */
  lemma StripIsStrip(s: string)
    ensures IsStripOf(Strip(s), s)
  {
    var a := Skip(s, 0, Space);
    var b := TrimEnd(s, a, |s|);
    assert Run(s, b, |s|, Space);
    assert Strip(s) == s[a..b];
  }

  /** Any slice that strips `s` is the one `Strip` computes. */
  lemma StripSliceIsStrip(s: string, a: int, b: int)
    requires 0 <= a <= b <= |s|
    requires Run(s, 0, a, Space) && Run(s, b, |s|, Space)
    requires a == b || (!IsSpace(s[a]) && !IsSpace(s[b - 1]))
    ensures s[a..b] == Strip(s)
  {
    var a' := Skip(s, 0, Space);
    if a == b {
      assert Run(s, 0, |s|, Space) by {
        forall k | 0 <= k < |s| ensures IsSpace(s[k]) {
          if k < a { assert InClass(Space, s[k]); } else { assert InClass(Space, s[k]); }
        }
      }
      RunWithinSkip(s, 0, |s|, Space);
    } else {
      RunStopsAtSkip(s, 0, a, Space);
    }
  }

  /** Every strip of `s` is the one `Strip` computes. */
  lemma StripOfIsStrip(s: string, r: string)
    requires IsStripOf(r, s)
    ensures r == Strip(s)
  {
    var a, b :| 0 <= a <= b <= |s| && r == s[a..b] && Run(s, 0, a, Space) && Run(s, b, |s|, Space)
                && (r == [] || (!IsSpace(r[0]) && !IsSpace(r[|r| - 1])));
    if a < b { assert s[a] == r[0] && s[b - 1] == r[|r| - 1]; }
    StripSliceIsStrip(s, a, b);
  }

  /** There is only one way to strip a string. */
  lemma StripUnique(s: string, r1: string, r2: string)
    requires IsStripOf(r1, s) && IsStripOf(r2, s)
    ensures r1 == r2
  {
    StripOfIsStrip(s, r1);
    StripOfIsStrip(s, r2);
  }

  /** Stripping twice is the same as stripping once. */
  lemma StripIdempotent(s: string)
    ensures Strip(Strip(s)) == Strip(s)
  {
    var r := Strip(s);
    assert IsStripOf(r, r) by {
      assert r == r[0..|r|];
      assert Run(r, 0, 0, Space) && Run(r, |r|, |r|, Space);
    }
    StripIsStrip(r);
    StripUnique(r, Strip(r), r);
  }

  /** An occurrence of `w` at p has the characters of `w` at p, p + 1, ... */
  lemma LitAtChar(s: string, p: int, w: string, i: nat)
    ensures LitAt(s, p, w) && i < |w| ==> s[p + i] == w[i]
  {
    if LitAt(s, p, w) && i < |w| {
      assert s[p..p + |w|][i] == s[p + i];
    }
  }

  /** A string without leading or trailing whitespace is its own strip. */
  lemma StripUnchanged(s: string)
    requires 0 < |s| && !IsSpace(s[0]) && !IsSpace(s[|s| - 1])
    ensures Strip(s) == s
  {
    StripSliceIsStrip(s, 0, |s|);
    assert s[0..|s|] == s;
  }
}

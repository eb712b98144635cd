/** Python's `str.replace(old, new)` for a non-empty `old`, the primitive that the
    CQ-code escaping functions chain, and the facts about it that the escaping
    proofs need. */
module StrReplace {

  /** `pat` occurs in `s` starting at index `i`. */
  predicate OccursAt(s: string, pat: string, i: int)
  {
    0 <= i && i + |pat| <= |s| && s[i..i + |pat|] == pat
  }

  /** Replaces every occurrence of `pat` in `s` by `rep`, scanning from the left
      and never looking again at text already replaced, as `str.replace` does. */
  function ReplaceAll(s: string, pat: string, rep: string): (r: string)
    requires |pat| > 0
    ensures |rep| <= |pat| ==> |r| <= |s|
    ensures |rep| >= |pat| ==> |r| >= |s|
    ensures |rep| == |pat| ==> |r| == |s|
    decreases |s|
  {
    if |s| < |pat| then s
    else if s[..|pat|] == pat then rep + ReplaceAll(s[|pat|..], pat, rep)
    else [s[0]] + ReplaceAll(s[1..], pat, rep)
  }

  /** A string in which the pattern does not occur is left as it is. */
  lemma {:induction false} ReplaceAbsent(s: string, pat: string, rep: string)
    requires |pat| > 0
    requires forall i :: !OccursAt(s, pat, i)
    ensures ReplaceAll(s, pat, rep) == s
    decreases |s|
  {
    if |s| >= |pat| {
      assert !OccursAt(s, pat, 0);
      forall i ensures !OccursAt(s[1..], pat, i) {
        assert !OccursAt(s, pat, i + 1);
      }
      ReplaceAbsent(s[1..], pat, rep);
    }
  }

  /** Text that cannot start a match (it lacks the pattern's first character) is
      copied through, and the scan resumes after it. */
  lemma {:induction false} ReplaceSkip(u: string, x: string, pat: string, rep: string)
    requires |pat| > 0 && pat[0] !in u
    ensures ReplaceAll(u + x, pat, rep) == u + ReplaceAll(x, pat, rep)
    decreases |u|
  {
    var s := u + x;
    if u == [] {
      assert s == x;
    } else if |s| < |pat| {
      assert ReplaceAll(x, pat, rep) == x;
    } else {
      assert s[0] == u[0];
      assert s[..|pat|][0] == s[0];
      assert s[..|pat|] != pat;
      assert ReplaceAll(s, pat, rep) == [s[0]] + ReplaceAll(s[1..], pat, rep);
      assert s[1..] == u[1..] + x;
      ReplaceSkip(u[1..], x, pat, rep);
      calc {
        ReplaceAll(s, pat, rep);
        [u[0]] + (u[1..] + ReplaceAll(x, pat, rep));
        ([u[0]] + u[1..]) + ReplaceAll(x, pat, rep);
        { assert [u[0]] + u[1..] == u; }
        u + ReplaceAll(x, pat, rep);
      }
    }
  }

  /** A leading occurrence of the pattern is replaced, and the scan resumes after it. */
  lemma ReplaceMatch(x: string, pat: string, rep: string)
    requires |pat| > 0
    ensures ReplaceAll(pat + x, pat, rep) == rep + ReplaceAll(x, pat, rep)
  {
    assert (pat + x)[..|pat|] == pat;
    assert (pat + x)[|pat|..] == x;
  }

  /** A leading block as long as the pattern but different from it, whose tail lacks
      the pattern's first character, is copied through unchanged. */
  lemma ReplaceMismatch(e: string, x: string, pat: string, rep: string)
    requires |pat| > 0 && |e| == |pat| && e != pat && pat[0] !in e[1..]
    ensures ReplaceAll(e + x, pat, rep) == e + ReplaceAll(x, pat, rep)
  {
    var s := e + x;
    assert s[..|pat|] == e;
    assert ReplaceAll(s, pat, rep) == [s[0]] + ReplaceAll(s[1..], pat, rep);
    assert s[1..] == e[1..] + x;
    ReplaceSkip(e[1..], x, pat, rep);
    assert [e[0]] + e[1..] == e;
  }

  /** Replacing a single character distributes over concatenation. */
  lemma {:induction false} ReplaceCharConcat(a: string, b: string, c: char, rep: string)
    ensures ReplaceAll(a + b, [c], rep) == ReplaceAll(a, [c], rep) + ReplaceAll(b, [c], rep)
    decreases |a|
  {
    if a != [] {
      assert (a + b)[1..] == a[1..] + b;
      ReplaceCharConcat(a[1..], b, c, rep);
    } else {
      assert a + b == b;
    }
  }
}

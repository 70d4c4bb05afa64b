/**
 * Replace-all on strings with the semantics of Rust's `str::replace`:
 * the pattern is searched for left to right, each match is replaced by the
 * replacement, and the search resumes after the end of the match, so matches
 * never overlap and a replacement is never searched again.
 */
module Rewrite {

  /** `pat` occurs in `s` starting at index `i`. */
  predicate MatchAt(s: string, pat: string, i: nat)
  {
    i + |pat| <= |s| && s[i..i + |pat|] == pat
  }

  /** `pat` occurs somewhere in `s`. */
  predicate Occurs(s: string, pat: string)
  {
    exists i: nat | i <= |s| :: MatchAt(s, pat, i)
  }

  /** `a` is obtained from `b` by deleting characters (order kept). */
  predicate IsSubsequence(a: string, b: string)
    decreases |b|
  {
    if a == [] then true
    else if b == [] then false
    else (a[0] == b[0] && IsSubsequence(a[1..], b[1..])) || IsSubsequence(a, b[1..])
  }

  /**
   * `s.replace(pat, rep)` for a non-empty pattern. Replacing by something no
   * longer than the pattern never grows the string, and by something no
   * shorter never shrinks it.
   */
  function ReplaceAll(s: string, pat: string, rep: string): (r: string)
    requires |pat| > 0
    ensures |rep| <= |pat| ==> |r| <= |s|
    ensures |pat| <= |rep| ==> |s| <= |r|
    decreases |s|
  {
    if |s| < |pat| then s
    else if MatchAt(s, pat, 0) then rep + ReplaceAll(s[|pat|..], pat, rep)
    else [s[0]] + ReplaceAll(s[1..], pat, rep)
  }

  /** A match in the tail of `s` is a match in `s`, one position later. */
  lemma MatchAtShift(s: string, pat: string, j: nat)
    requires |s| > 0
    ensures MatchAt(s[1..], pat, j) <==> MatchAt(s, pat, j + 1)
  {
    if j + 1 + |pat| <= |s| {
      assert s[1..][j..j + |pat|] == s[j + 1..j + 1 + |pat|];
    }
  }

  /** Without a match at the front, `s` and its tail contain the same matches. */
  lemma OccursShift(s: string, pat: string)
    requires |s| > 0 && !MatchAt(s, pat, 0)
    ensures Occurs(s, pat) <==> Occurs(s[1..], pat)
  {
    if Occurs(s, pat) {
      var i: nat :| i <= |s| && MatchAt(s, pat, i);
      assert i > 0;
      MatchAtShift(s, pat, i - 1);
      assert MatchAt(s[1..], pat, i - 1);
    }
    if Occurs(s[1..], pat) {
      var j: nat :| j <= |s[1..]| && MatchAt(s[1..], pat, j);
      MatchAtShift(s, pat, j);
      assert MatchAt(s, pat, j + 1);
    }
  }

  /** A string with no match is left exactly as it is. */
  lemma {:induction false} ReplaceAllUnchanged(s: string, pat: string, rep: string)
    requires |pat| > 0 && !Occurs(s, pat)
    ensures ReplaceAll(s, pat, rep) == s
    decreases |s|
  {
    if |s| >= |pat| {
      assert MatchAt(s, pat, 0) ==> Occurs(s, pat);
      OccursShift(s, pat);
      ReplaceAllUnchanged(s[1..], pat, rep);
      assert [s[0]] + s[1..] == s;
    }
  }

  /**
   * Replacing at least one match by something shorter shortens the string,
   * and by something longer lengthens it.
   */
  lemma {:induction false} ReplaceAllChanges(s: string, pat: string, rep: string)
    requires |pat| > 0 && Occurs(s, pat)
    ensures |rep| < |pat| ==> |ReplaceAll(s, pat, rep)| < |s|
    ensures |pat| < |rep| ==> |s| < |ReplaceAll(s, pat, rep)|
    decreases |s|
  {
    var i: nat :| i <= |s| && MatchAt(s, pat, i);
    if MatchAt(s, pat, 0) {
      ReplaceAllAtFront(s, pat, rep);
    } else {
      OccursShift(s, pat);
      ReplaceAllSkip(s, pat, rep);
      ReplaceAllChanges(s[1..], pat, rep);
    }
  }

  /** The string is left unchanged exactly when the pattern does not occur. */
  lemma ReplaceAllUnchangedIff(s: string, pat: string, rep: string)
    requires |pat| > 0 && |rep| != |pat|
    ensures ReplaceAll(s, pat, rep) == s <==> !Occurs(s, pat)
  {
    if Occurs(s, pat) {
      ReplaceAllChanges(s, pat, rep);
      assert |ReplaceAll(s, pat, rep)| != |s|;
    } else {
      ReplaceAllUnchanged(s, pat, rep);
    }
  }

  /** Without a match at the front, the scan keeps the first character. */
  lemma ReplaceAllSkip(s: string, pat: string, rep: string)
    requires |pat| > 0 && |s| > 0 && !MatchAt(s, pat, 0)
    ensures ReplaceAll(s, pat, rep) == [s[0]] + ReplaceAll(s[1..], pat, rep)
  {
  }

  /** A match at the front is replaced and the scan resumes after it. */
  lemma ReplaceAllAtFront(s: string, pat: string, rep: string)
    requires |pat| > 0 && MatchAt(s, pat, 0)
    ensures ReplaceAll(s, pat, rep) == rep + ReplaceAll(s[|pat|..], pat, rep)
  {
  }

  /** The scan copies every character that does not start a match. */
  lemma {:induction false} ReplaceAllKeepsPrefix(s: string, pat: string, rep: string, i: nat)
    requires |pat| > 0 && i <= |s|
    requires forall j: nat :: j < i ==> !MatchAt(s, pat, j)
    ensures ReplaceAll(s, pat, rep) == s[..i] + ReplaceAll(s[i..], pat, rep)
    decreases i
  {
    if i > 0 {
      var t := s[1..];
      ReplaceAllSkip(s, pat, rep);
      forall j: nat | j < i - 1 ensures !MatchAt(t, pat, j) {
        MatchAtShift(s, pat, j);
      }
      ReplaceAllKeepsPrefix(t, pat, rep, i - 1);
      SliceOfTail(s, i - 1, i);
    }
  }

  /**
   * The scan's behaviour at the leftmost match: everything before it is kept,
   * the match is replaced, and the scan resumes after its end.
   */
  lemma ReplaceAllAtFirstMatch(s: string, pat: string, rep: string, i: nat)
    requires |pat| > 0 && MatchAt(s, pat, i)
    requires forall j: nat :: j < i ==> !MatchAt(s, pat, j)
    ensures ReplaceAll(s, pat, rep) == s[..i] + rep + ReplaceAll(s[i + |pat|..], pat, rep)
  {
    ReplaceAllKeepsPrefix(s, pat, rep, i);
    MatchAtSuffix(s, pat, i);
    ReplaceAllAtFront(s[i..], pat, rep);
    AppendAssoc(s[..i], rep, ReplaceAll(s[i + |pat|..], pat, rep));
  }

  /** A match at `i` is a match at the front of the suffix from `i`. */
  lemma MatchAtSuffix(s: string, pat: string, i: nat)
    requires MatchAt(s, pat, i)
    ensures MatchAt(s[i..], pat, 0)
    ensures s[i..][|pat|..] == s[i + |pat|..]
  {
    assert s[i..][0..|pat|] == s[i..i + |pat|];
  }

  /** Slicing the tail of `s` is slicing `s` one position later. */
  lemma SliceOfTail(s: string, k: nat, m: nat)
    requires 0 <= k < m <= |s|
    ensures [s[0]] + s[1..][..k] == s[..k + 1]
    ensures s[1..][m - 1..] == s[m..]
  {
  }

  /** A suffix's subsequences are subsequences of the whole string. */
  lemma {:induction false} SubsequenceOfSuffix(a: string, b: string, k: nat)
    requires k <= |b| && IsSubsequence(a, b[k..])
    ensures IsSubsequence(a, b)
    decreases k
  {
    if k > 0 {
      assert b[1..][k - 1..] == b[k..];
      SubsequenceOfSuffix(a, b[1..], k - 1);
    }
  }

  lemma {:induction false} SubsequenceTransitive(a: string, b: string, c: string)
    requires IsSubsequence(a, b) && IsSubsequence(b, c)
    ensures IsSubsequence(a, c)
    decreases |c|
  {
    if a != [] && c != [] {
      if IsSubsequence(b, c[1..]) {
        SubsequenceTransitive(a, b, c[1..]);
      } else if a[0] == b[0] && IsSubsequence(a[1..], b[1..]) {
        SubsequenceTransitive(a[1..], b[1..], c[1..]);
      } else {
        SubsequenceTransitive(a, b[1..], c[1..]);
      }
    }
  }

  lemma {:induction false} SubsequenceReflexive(a: string)
    ensures IsSubsequence(a, a)
    decreases |a|
  {
    if a != [] {
      SubsequenceReflexive(a[1..]);
    }
  }

  /** Replacing by the empty string only deletes characters. */
  lemma {:induction false} RemoveAllDeletesOnly(s: string, pat: string)
    requires |pat| > 0
    ensures IsSubsequence(ReplaceAll(s, pat, ""), s)
    decreases |s|
  {
    if |s| < |pat| {
      SubsequenceReflexive(s);
    } else if MatchAt(s, pat, 0) {
      RemoveAllDeletesOnly(s[|pat|..], pat);
      assert "" + ReplaceAll(s[|pat|..], pat, "") == ReplaceAll(s[|pat|..], pat, "");
      SubsequenceOfSuffix(ReplaceAll(s, pat, ""), s, |pat|);
    } else {
      RemoveAllDeletesOnly(s[1..], pat);
      var r := ReplaceAll(s, pat, "");
      assert r[0] == s[0] && r[1..] == ReplaceAll(s[1..], pat, "");
    }
  }

  /** No match starts before `hi` when the pattern's first character is absent there. */
  lemma NoMatchBefore(s: string, pat: string, hi: nat)
    requires |pat| > 0 && hi <= |s| && pat[0] !in s[..hi]
    ensures forall j: nat :: j < hi ==> !MatchAt(s, pat, j)
  {
    forall j: nat | j < hi ensures !MatchAt(s, pat, j) {
      assert s[..hi][j] == s[j];
      if j + |pat| <= |s| {
        assert s[j..j + |pat|][0] == s[j];
      }
    }
  }

  /** A character that differs from the pattern's rules out a match. */
  lemma MismatchAt(s: string, pat: string, j: nat, k: nat)
    requires k < |pat| && j + k < |s| && s[j + k] != pat[k]
    ensures !MatchAt(s, pat, j)
  {
    if j + |pat| <= |s| {
      assert s[j..j + |pat|][k] == s[j + k];
    }
  }

  /** A string lacking one of the pattern's characters contains no match. */
  lemma AbsentChar(s: string, pat: string, k: nat)
    requires k < |pat| && pat[k] !in s
    ensures !Occurs(s, pat)
  {
    forall j: nat | j <= |s| ensures !MatchAt(s, pat, j) {
      if j + |pat| <= |s| {
        assert s[j..j + |pat|][k] == s[j + k];
      }
    }
  }

  /**
   * No match starts at or after `lo` when the pattern's k-th character is
   * absent from where those matches would place it.
   */
  lemma NoMatchFrom(s: string, pat: string, lo: nat, k: nat)
    requires k < |pat| && lo + k <= |s| && pat[k] !in s[lo + k..]
    ensures forall j: nat :: lo <= j ==> !MatchAt(s, pat, j)
  {
    forall j: nat | lo <= j ensures !MatchAt(s, pat, j) {
      if j + |pat| <= |s| {
        assert s[j..j + |pat|][k] == s[j + k];
        assert s[lo + k..][j - lo] == s[j + k];
      }
    }
  }

  /** The pieces of a three-part concatenation, with a match of the middle part. */
  lemma MatchInside(a: string, b: string, c: string)
    ensures MatchAt(a + b + c, b, |a|)
    ensures (a + b + c)[..|a|] == a
    ensures (a + b + c)[|a| + |b|..] == c
  {
    var s := a + b + c;
    assert s[|a|..|a| + |b|] == b;
  }

  /** Dropping a whole first part, then some of the rest. */
  lemma DropConcat(a: string, b: string, m: nat)
    requires m <= |b|
    ensures (a + b)[|a| + m..] == b[m..]
  {
  }

  /** Dropping part of the first part of a concatenation. */
  lemma DropFromFirst(a: string, b: string, m: nat)
    requires m <= |a|
    ensures (a + b)[m..] == a[m..] + b
  {
  }

  /** A string starts with a match of its own first part. */
  lemma MatchFront(b: string, c: string)
    ensures MatchAt(b + c, b, 0)
    ensures (b + c)[|b|..] == c
  {
    assert (b + c)[0..|b|] == b;
  }

  lemma DropPrefix(a: string, b: string)
    ensures (a + b)[|a|..] == b
  {
  }

  lemma EmptyMiddle(a: string, b: string)
    ensures a + "" + b == a + b
  {
  }

  lemma AppendAssoc(a: string, b: string, c: string)
    ensures a + b + c == a + (b + c)
  {
  }
}

/**
 Literal substring replacement with the semantics of JavaScript's
 `String.prototype.replace`:
 - `ReplaceAll` is `replace(/pat/g, rep)` for a regular expression made only
   of literal characters: the string is scanned left to right, every match is
   replaced, and scanning resumes after the match, so matches never overlap
   and replaced text is never rescanned;
 - `ReplaceFirst` is `replace(pat, rep)` with a string pattern: only the
   leftmost occurrence is replaced.
 The replacement text is inserted literally (the `$`-patterns of JavaScript
 are not interpreted).
 */
module Replace {

  /** `pat` occurs in `s` starting at index `i`. */
  predicate OccursAt(s: string, pat: string, i: nat) {
    i + |pat| <= |s| && s[i..i + |pat|] == pat
  }

  /** `pat` occurs nowhere in `s`. */
  predicate Absent(s: string, pat: string) {
    forall i: nat :: i <= |s| ==> !OccursAt(s, pat, i)
  }

  /** `i` is the leftmost occurrence of `pat` in `s`. */
  predicate FirstAt(s: string, pat: string, i: nat) {
    OccursAt(s, pat, i) && forall j: nat :: j < i ==> !OccursAt(s, pat, j)
  }

  /** Replaces the leftmost occurrence of `pat` in `s` by `rep`. */
  function ReplaceFirst(s: string, pat: string, rep: string): string
    decreases |s|
  {
    if pat <= s then rep + s[|pat|..]
    else if s == [] then []
    else [s[0]] + ReplaceFirst(s[1..], pat, rep)
  }

  /** Replaces every left-to-right, non-overlapping occurrence of `pat`. */
  function ReplaceAll(s: string, pat: string, rep: string): string
    requires |pat| > 0
    decreases |s|
  {
    if s == [] then []
    else if pat <= s then rep + ReplaceAll(s[|pat|..], pat, rep)
    else [s[0]] + ReplaceAll(s[1..], pat, rep)
  }

  /** The number of matches `ReplaceAll` replaces. */
  function CountMatches(s: string, pat: string): nat
    requires |pat| > 0
    decreases |s|
  {
    if s == [] then 0
    else if pat <= s then 1 + CountMatches(s[|pat|..], pat)
    else CountMatches(s[1..], pat)
  }

  /** A match at 0 is exactly a prefix. */
  lemma OccursAtZero(s: string, pat: string)
    ensures OccursAt(s, pat, 0) <==> pat <= s
  {
  }

  /** Dropping the first `k` characters shifts every occurrence left by `k`. */
  lemma OccursShift(s: string, pat: string, k: nat, i: nat)
    requires k <= |s|
    ensures OccursAt(s, pat, k + i) <==> OccursAt(s[k..], pat, i)
  {
    if k + i + |pat| <= |s| {
      assert s[k..][i..i + |pat|] == s[k + i..k + i + |pat|];
    }
  }

  /** An occurrence-free string stays occurrence-free when its first `k`
      characters are dropped. */
  lemma AbsentSuffix(s: string, pat: string, k: nat)
    requires k <= |s|
    requires Absent(s, pat)
    ensures Absent(s[k..], pat)
  {
    forall i: nat | i <= |s[k..]|
      ensures !OccursAt(s[k..], pat, i)
    {
      OccursShift(s, pat, k, i);
    }
  }

  /** A string in which the first character of `pat` never appears holds no
      occurrence of `pat`. */
  lemma AbsentWithoutHead(s: string, pat: string)
    requires |pat| > 0 && pat[0] !in s
    ensures Absent(s, pat)
  {
    forall i: nat | i <= |s|
      ensures !OccursAt(s, pat, i)
    {
      if i + |pat| <= |s| {
        assert s[i..i + |pat|][0] == s[i] != pat[0];
      }
    }
  }

  /** A leftmost occurrence past index 0 is, one character further in, the
      leftmost occurrence of the rest of the string. */
  lemma FirstAtTail(s: string, pat: string, i: nat)
    requires i > 0 && FirstAt(s, pat, i)
    ensures s != [] && !(pat <= s) && FirstAt(s[1..], pat, i - 1)
  {
    OccursAtZero(s, pat);
    assert !OccursAt(s, pat, 0);
    forall j: nat | j < i - 1
      ensures !OccursAt(s[1..], pat, j)
    {
      OccursShift(s, pat, 1, j);
    }
    OccursShift(s, pat, 1, i - 1);
  }

  /** Away from a match, `ReplaceAll` keeps the first character and moves on. */
  lemma ReplaceAllStep(s: string, pat: string, rep: string)
    requires |pat| > 0 && s != [] && !(pat <= s)
    ensures ReplaceAll(s, pat, rep) == [s[0]] + ReplaceAll(s[1..], pat, rep)
  {
  }

  /** Putting the first character back in front of a split of the rest. */
  lemma ConsSplit(s: string, i: nat, k: nat, mid: string, tail: string)
    requires 0 < i <= k <= |s|
    ensures s[1..][k - 1..] == s[k..]
    ensures [s[0]] + (s[1..][..i - 1] + mid + tail) == s[..i] + mid + tail
  {
    assert s[1..][..i - 1] == s[1..i];
    assert [s[0]] + s[1..i] == s[..i];
  }

  // ---------------------------------------------------------------------
  // ReplaceFirst against the independent, index-based description
  // ---------------------------------------------------------------------

  /** The leftmost occurrence, and nothing else, is replaced. */
  lemma {:induction false} ReplaceFirstAt(s: string, pat: string, rep: string, i: nat)
    requires FirstAt(s, pat, i)
    ensures ReplaceFirst(s, pat, rep) == s[..i] + rep + s[i + |pat|..]
    decreases i
  {
    if i == 0 {
      OccursAtZero(s, pat);
    } else {
      FirstAtTail(s, pat, i);
      ReplaceFirstAt(s[1..], pat, rep, i - 1);
      ReplaceFirstAtCons(s, pat, rep, i);
    }
  }

  /** The inductive step of `ReplaceFirstAt`. */
  lemma ReplaceFirstAtCons(s: string, pat: string, rep: string, i: nat)
    requires 0 < i && i + |pat| <= |s| && !(pat <= s)
    requires ReplaceFirst(s[1..], pat, rep) == s[1..][..i - 1] + rep + s[1..][i - 1 + |pat|..]
    ensures ReplaceFirst(s, pat, rep) == s[..i] + rep + s[i + |pat|..]
  {
    assert ReplaceFirst(s, pat, rep) == [s[0]] + ReplaceFirst(s[1..], pat, rep);
    ConsSplit(s, i, i + |pat|, rep, s[i + |pat|..]);
  }

  /** Without an occurrence the string is returned unchanged. */
  lemma {:induction false} ReplaceFirstAbsent(s: string, pat: string, rep: string)
    requires Absent(s, pat)
    ensures ReplaceFirst(s, pat, rep) == s
    decreases |s|
  {
    OccursAtZero(s, pat);
    assert !OccursAt(s, pat, 0);
    if s != [] {
      AbsentSuffix(s, pat, 1);
      ReplaceFirstAbsent(s[1..], pat, rep);
    }
  }

  /** A prefix in which no occurrence starts is skipped by the search. */
  lemma {:induction false} ReplaceFirstSkip(a: string, b: string, pat: string, rep: string)
    requires |pat| > 0 && pat[0] !in a
    ensures ReplaceFirst(a + b, pat, rep) == a + ReplaceFirst(b, pat, rep)
    decreases |a|
  {
    if a != [] {
      var s := a + b;
      assert s[0] == a[0] != pat[0];
      assert !(pat <= s);
      assert s[1..] == a[1..] + b;
      ReplaceFirstSkip(a[1..], b, pat, rep);
    } else {
      assert a + b == b;
    }
  }

  /** When the first occurrence follows a prefix free of the pattern's first
      character, exactly that occurrence is replaced. */
  lemma ReplaceFirstAfterPrefix(a: string, b: string, pat: string, rep: string)
    requires |pat| > 0 && pat[0] !in a
    ensures ReplaceFirst(a + pat + b, pat, rep) == a + rep + b
  {
    assert a + pat + b == a + (pat + b);
    ReplaceFirstSkip(a, pat + b, pat, rep);
    assert pat <= pat + b;
    assert (pat + b)[|pat|..] == b;
    assert a + (rep + b) == a + rep + b;
  }

  // ---------------------------------------------------------------------
  // ReplaceAll against the independent, index-based description
  // ---------------------------------------------------------------------

  /** Without an occurrence the string is returned unchanged. */
  lemma {:induction false} ReplaceAllAbsent(s: string, pat: string, rep: string)
    requires |pat| > 0
    requires Absent(s, pat)
    ensures ReplaceAll(s, pat, rep) == s
    decreases |s|
  {
    if s != [] {
      OccursAtZero(s, pat);
      assert !OccursAt(s, pat, 0);
      AbsentSuffix(s, pat, 1);
      ReplaceAllAbsent(s[1..], pat, rep);
    }
  }

  /** The leftmost occurrence is replaced and the scan resumes right after
      it: the text before the match is kept, the text after it is processed
      again by `ReplaceAll`. */
  lemma {:induction false} ReplaceAllFirst(s: string, pat: string, rep: string, i: nat)
    requires |pat| > 0
    requires FirstAt(s, pat, i)
    ensures ReplaceAll(s, pat, rep) == s[..i] + rep + ReplaceAll(s[i + |pat|..], pat, rep)
    decreases i
  {
    if i == 0 {
      OccursAtZero(s, pat);
    } else {
      FirstAtTail(s, pat, i);
      ReplaceAllFirst(s[1..], pat, rep, i - 1);
      ReplaceAllFirstCons(s, pat, rep, i);
    }
  }

  /** The inductive step of `ReplaceAllFirst`: a non-matching first character
      is kept in front of the rest's replacement. */
  lemma ReplaceAllFirstCons(s: string, pat: string, rep: string, i: nat)
    requires |pat| > 0 && 0 < i && i + |pat| <= |s| && !(pat <= s)
    requires ReplaceAll(s[1..], pat, rep)
          == s[1..][..i - 1] + rep + ReplaceAll(s[1..][i - 1 + |pat|..], pat, rep)
    ensures ReplaceAll(s, pat, rep) == s[..i] + rep + ReplaceAll(s[i + |pat|..], pat, rep)
  {
    var tail := ReplaceAll(s[i + |pat|..], pat, rep);
    ReplaceAllStep(s, pat, rep);
    ConsSplit(s, i, i + |pat|, rep, tail);
  }

  /** Replace-all and replace-first agree when at most one match is
      replaced: once the leftmost occurrence is gone, no later one remains. */
  lemma ReplaceAllIsFirstWhenSingle(s: string, pat: string, rep: string, i: nat)
    requires |pat| > 0
    requires FirstAt(s, pat, i)
    requires Absent(s[i + |pat|..], pat)
    ensures ReplaceAll(s, pat, rep) == ReplaceFirst(s, pat, rep)
  {
    ReplaceAllFirst(s, pat, rep, i);
    ReplaceAllAbsent(s[i + |pat|..], pat, rep);
    ReplaceFirstAt(s, pat, rep, i);
  }

  /** Every replaced match changes the length by `|rep| - |pat|`. */
  lemma {:induction false} ReplaceAllLength(s: string, pat: string, rep: string)
    requires |pat| > 0
    ensures |ReplaceAll(s, pat, rep)| == |s| + CountMatches(s, pat) * (|rep| - |pat|)
    decreases |s|
  {
    if s == [] {
    } else if pat <= s {
      ReplaceAllLength(s[|pat|..], pat, rep);
      var n := CountMatches(s[|pat|..], pat);
      assert (1 + n) * (|rep| - |pat|) == (|rep| - |pat|) + n * (|rep| - |pat|);
    } else {
      ReplaceAllLength(s[1..], pat, rep);
    }
  }

  /** A string without occurrences has no matches. */
  lemma {:induction false} CountAbsent(s: string, pat: string)
    requires |pat| > 0
    requires Absent(s, pat)
    ensures CountMatches(s, pat) == 0
    decreases |s|
  {
    if s != [] {
      OccursAtZero(s, pat);
      assert !OccursAt(s, pat, 0);
      AbsentSuffix(s, pat, 1);
      CountAbsent(s[1..], pat);
    }
  }

  /** Two strings can be processed separately when no occurrence of `pat`
      can straddle the boundary between them: that is the case when the last
      character of the first or the first character of the second does not
      appear in `pat`. */
  predicate SafeJoin(a: string, b: string, pat: string) {
    a == [] || b == [] || a[|a| - 1] !in pat || b[0] !in pat
  }

  /** An occurrence that starts in `a` either lies inside `a` or covers both
      the last character of `a` and the first of `b`. */
  lemma Straddle(a: string, b: string, pat: string)
    requires a != []
    ensures pat <= a + b ==> pat <= a || (a[|a| - 1] in pat && b != [] && b[0] in pat)
  {
    var s := a + b;
    if pat <= s {
      if |pat| <= |a| {
        assert s[..|pat|] == a[..|pat|];
      } else {
        assert pat[|a| - 1] == s[|a| - 1] == a[|a| - 1];
        assert pat[|a|] == s[|a|] == b[0];
      }
    }
  }

  /** `ReplaceAll` distributes over a join no match can straddle. */
  lemma {:induction false} ReplaceAllJoin(a: string, b: string, pat: string, rep: string)
    requires |pat| > 0
    requires SafeJoin(a, b, pat)
    ensures ReplaceAll(a + b, pat, rep) == ReplaceAll(a, pat, rep) + ReplaceAll(b, pat, rep)
    decreases |a|
  {
    var s := a + b;
    if a == [] {
      assert s == b;
    } else if pat <= a {
      assert pat <= s;
      assert s[|pat|..] == a[|pat|..] + b;
      ReplaceAllJoin(a[|pat|..], b, pat, rep);
    } else {
      Straddle(a, b, pat);
      assert s[1..] == a[1..] + b;
      ReplaceAllJoin(a[1..], b, pat, rep);
    }
  }

  /** `CountMatches` adds up over a join no match can straddle. */
  lemma {:induction false} CountJoin(a: string, b: string, pat: string)
    requires |pat| > 0
    requires SafeJoin(a, b, pat)
    ensures CountMatches(a + b, pat) == CountMatches(a, pat) + CountMatches(b, pat)
    decreases |a|
  {
    var s := a + b;
    if a == [] {
      assert s == b;
    } else if pat <= a {
      assert pat <= s;
      assert s[|pat|..] == a[|pat|..] + b;
      CountJoin(a[|pat|..], b, pat);
    } else {
      Straddle(a, b, pat);
      assert s[1..] == a[1..] + b;
      CountJoin(a[1..], b, pat);
    }
  }

  /** A replaced match puts the replacement's first character first. */
  lemma ReplacedHead(s: string, pat: string, rep: string)
    requires |pat| > 0 && |rep| > 0 && s != []
    ensures ReplaceAll(s, pat, rep)[0] !in rep ==> !(pat <= s)
  {
  }

  /** If no character of the result of `ReplaceAll` in its first `m`
      positions comes from `rep`, those positions are the input's, unchanged,
      and no match started there. */
  lemma {:induction false} UntouchedPrefix(s: string, pat: string, rep: string, m: nat)
    requires |pat| > 0 && |rep| > 0
    requires m <= |ReplaceAll(s, pat, rep)|
    requires forall k :: 0 <= k < m ==> ReplaceAll(s, pat, rep)[k] !in rep
    ensures m <= |s| && ReplaceAll(s, pat, rep)[..m] == s[..m]
    decreases |s|
  {
    var r := ReplaceAll(s, pat, rep);
    if m > 0 {
      assert r[0] !in rep;
      ReplacedHead(s, pat, rep);
      {
        var r' := ReplaceAll(s[1..], pat, rep);
        assert r == [s[0]] + r';
        forall k | 0 <= k < m - 1
          ensures r'[k] !in rep
        {
          assert r'[k] == r[k + 1];
        }
        UntouchedPrefix(s[1..], pat, rep, m - 1);
        assert r[..m] == [s[0]] + r'[..m - 1];
        assert s[..m] == [s[0]] + s[1..][..m - 1];
      }
    }
  }

  /** A replacement that is non-empty and shares no character with the
      pattern cannot re-create the pattern: afterwards no occurrence is
      left. Without such a side condition one can be (`ReplaceAllCanRecreate`). */
  lemma {:induction false} ReplaceAllRemovesAll(s: string, pat: string, rep: string)
    requires |pat| > 0 && |rep| > 0
    requires forall k :: 0 <= k < |pat| ==> pat[k] !in rep
    ensures Absent(ReplaceAll(s, pat, rep), pat)
    decreases |s|
  {
    var r := ReplaceAll(s, pat, rep);
    if s != [] && pat <= s {
      var r' := ReplaceAll(s[|pat|..], pat, rep);
      ReplaceAllRemovesAll(s[|pat|..], pat, rep);
      assert r == rep + r';
      assert r[|rep|..] == r';
      forall i: nat | i <= |r|
        ensures !OccursAt(r, pat, i)
      {
        if i < |rep| {
          if i + |pat| <= |r| {
            assert r[i..i + |pat|][0] == r[i] == rep[i];
          }
        } else {
          OccursShift(r, pat, |rep|, i - |rep|);
        }
      }
    } else if s != [] {
      var r' := ReplaceAll(s[1..], pat, rep);
      ReplaceAllRemovesAll(s[1..], pat, rep);
      assert r == [s[0]] + r';
      assert r[1..] == r';
      forall i: nat | i <= |r|
        ensures !OccursAt(r, pat, i)
      {
        if i > 0 {
          OccursShift(r, pat, 1, i - 1);
        } else if |pat| <= |r| {
          if forall k :: 0 <= k < |pat| - 1 ==> r'[k] !in rep {
            UntouchedPrefix(s[1..], pat, rep, |pat| - 1);
            assert s[..|pat|] == [s[0]] + s[1..][..|pat| - 1];
            assert r[..|pat|] == [s[0]] + r'[..|pat| - 1];
            assert r[..|pat|] == s[..|pat|];
          } else {
            var k :| 0 <= k < |pat| - 1 && r'[k] in rep;
            assert r[k + 1] == r'[k];
            assert r[..|pat|][k + 1] != pat[k + 1];
          }
        }
      }
    }
  }

  /** Replacing every match does not leave the string free of the pattern
      in general: the text around a removed match can join into a new one. */
  lemma ReplaceAllCanRecreate()
    ensures ReplaceAll("%%x%x%", "%x%", "") == "%x%"
    ensures OccursAt(ReplaceAll("%%x%x%", "%x%", ""), "%x%", 0)
  {
    var pat, s := "%x%", "%%x%x%";
    assert s[1] != pat[1];
    assert ReplaceAll(s, pat, "") == [s[0]] + ReplaceAll(s[1..], pat, "");
    assert s[1..] == pat + "x%";
    assert ReplaceAll(s[1..], pat, "") == ReplaceAll("x%", pat, "");
    assert "x%"[0] != pat[0];
    assert ReplaceAll("x%", pat, "") == "x" + ReplaceAll("%", pat, "");
    assert ReplaceAll("%", pat, "") == "%" + ReplaceAll([], pat, "");
  }
}

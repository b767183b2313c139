/**
 * Python's `s.replace(old, new)` and `s.count(old)` for a non-empty `old`:
 * occurrences are found left to right and do not overlap; after a match the
 * search resumes just past it.
 */
module Replace {
  import opened Text

  /** `s.count(pat)`: the number of non-overlapping occurrences of `pat`. */
  function CountOf(s: string, pat: string): (n: nat)
    requires |pat| > 0
    ensures n * |pat| <= |s|
    decreases |s|
  {
    if |s| < |pat| then 0
    else if s[..|pat|] == pat then CountOf(s[|pat|..], pat) + 1
    else CountOf(s[1..], pat)
  }

  /** `s.replace(pat, rep)`; a same-length replacement keeps the length. */
  function ReplaceAll(s: string, pat: string, rep: string): (r: string)
    requires |pat| > 0
    ensures |rep| == |pat| ==> |r| == |s|
    decreases |s|
  {
    if |s| < |pat| then s
    else if s[..|pat|] == pat then rep + ReplaceAll(s[|pat|..], pat, rep)
    else [s[0]] + ReplaceAll(s[1..], pat, rep)
  }

  /** Every occurrence that `CountOf` counts is replaced, so the length
      changes by `|rep| - |pat|` per occurrence. */
  lemma {:induction false} ReplaceLength(s: string, pat: string, rep: string)
    requires |pat| > 0
    ensures |ReplaceAll(s, pat, rep)| == |s| + CountOf(s, pat) * (|rep| - |pat|)
    decreases |s|
  {
    if |s| < |pat| {
    } else if s[..|pat|] == pat {
      ReplaceLength(s[|pat|..], pat, rep);
      MulSucc(CountOf(s[|pat|..], pat), |rep| - |pat|);
    } else {
      ReplaceLength(s[1..], pat, rep);
    }
  }

  lemma MulSucc(c: nat, d: int)
    ensures (c + 1) * d == c * d + d
  {
  }

  /** `r` is `s` with some occurrences of the character `a` turned into `b`
      and nothing else touched. */
  predicate OnlyChanges(s: string, r: string, a: char, b: char) {
    |r| == |s| && forall i :: 0 <= i < |s| ==> r[i] == s[i] || (s[i] == a && r[i] == b)
  }

  /** An occurrence anywhere is counted: either it is matched itself or an
      earlier match covers it. */
  lemma {:induction false} OccurrenceIsCounted(s: string, pat: string, i: nat)
    requires |pat| > 0 && OccursAt(pat, s, i)
    ensures CountOf(s, pat) > 0
    decreases |s|
  {
    if s[..|pat|] != pat {
      assert i > 0;
      assert s[1..][i - 1..i - 1 + |pat|] == s[i..i + |pat|];
      OccurrenceIsCounted(s[1..], pat, i - 1);
    }
  }

  /** A counted text contains an occurrence. */
  lemma {:induction false} CountedIsOccurrence(s: string, pat: string) returns (i: nat)
    requires |pat| > 0 && CountOf(s, pat) > 0
    ensures OccursAt(pat, s, i)
    decreases |s|
  {
    if s[..|pat|] == pat {
      i := 0;
    } else {
      var j := CountedIsOccurrence(s[1..], pat);
      assert s[j + 1..j + 1 + |pat|] == s[1..][j..j + |pat|];
      i := j + 1;
    }
  }

  /** No occurrence is counted exactly when `pat` does not occur at all. */
  lemma CountZeroIffAbsent(s: string, pat: string)
    requires |pat| > 0
    ensures CountOf(s, pat) == 0 <==> !Contains(s, pat)
  {
    if CountOf(s, pat) > 0 {
      var i := CountedIsOccurrence(s, pat);
      assert i <= |s|;
    } else if Contains(s, pat) {
      var i: nat :| i <= |s| && OccursAt(pat, s, i);
      OccurrenceIsCounted(s, pat, i);
    }
  }

  /** Replacing with a same-length text that differs from the pattern only
      where the pattern has `a` and the replacement has `b` rewrites some
      `a`s into `b`s and keeps every other character in place. */
  lemma {:induction false} ReplaceOnlyChanges(s: string, pat: string, rep: string, a: char, b: char)
    requires |pat| > 0 && |rep| == |pat|
    requires forall k :: 0 <= k < |pat| ==> rep[k] == pat[k] || (pat[k] == a && rep[k] == b)
    ensures OnlyChanges(s, ReplaceAll(s, pat, rep), a, b)
    decreases |s|
  {
    var r := ReplaceAll(s, pat, rep);
    if |s| < |pat| {
    } else if s[..|pat|] == pat {
      var tail := ReplaceAll(s[|pat|..], pat, rep);
      ReplaceOnlyChanges(s[|pat|..], pat, rep, a, b);
      assert r == rep + tail;
      forall i | 0 <= i < |s| ensures r[i] == s[i] || (s[i] == a && r[i] == b) {
        if i < |pat| {
          assert r[i] == rep[i] && s[i] == pat[i];
        } else {
          assert r[i] == tail[i - |pat|] && s[i] == s[|pat|..][i - |pat|];
        }
      }
    } else {
      var tail := ReplaceAll(s[1..], pat, rep);
      ReplaceOnlyChanges(s[1..], pat, rep, a, b);
      assert r == [s[0]] + tail;
      forall i | 0 <= i < |s| ensures r[i] == s[i] || (s[i] == a && r[i] == b) {
        if i > 0 {
          assert r[i] == tail[i - 1] && s[i] == s[1..][i - 1];
        }
      }
    }
  }

  /** With a pattern that never matches, replacement is the identity. */
  lemma {:induction false} ReplaceWithoutMatch(s: string, pat: string, rep: string)
    requires |pat| > 0
    requires CountOf(s, pat) == 0
    ensures ReplaceAll(s, pat, rep) == s
    decreases |s|
  {
    if |s| >= |pat| {
      assert s[..|pat|] != pat;
      ReplaceWithoutMatch(s[1..], pat, rep);
      assert s == [s[0]] + s[1..];
    }
  }

  /** A same-length replacement that differs from its pattern changes the
      text exactly when the pattern is counted at least once. */
  lemma {:induction false} ReplaceChangesIffCounted(s: string, pat: string, rep: string)
    requires |pat| > 0 && |rep| == |pat| && rep != pat
    ensures ReplaceAll(s, pat, rep) == s <==> CountOf(s, pat) == 0
    decreases |s|
  {
    if CountOf(s, pat) == 0 {
      ReplaceWithoutMatch(s, pat, rep);
    } else if s[..|pat|] == pat {
      var r := ReplaceAll(s, pat, rep);
      assert r[..|pat|] == rep;
    } else {
      ReplaceChangesIffCounted(s[1..], pat, rep);
      var r := ReplaceAll(s, pat, rep);
      assert r == [s[0]] + ReplaceAll(s[1..], pat, rep);
    }
  }

  /** An occurrence in a suffix is an occurrence in the whole text. */
  lemma ShiftOccurrence(s: string, pat: string, k: nat, q: nat)
    requires k <= |s| && OccursAt(pat, s[k..], q)
    ensures OccursAt(pat, s, q + k)
  {
    assert s[q + k..q + k + |pat|] == s[k..][q..q + |pat|];
  }

  /** A change made by a same-length replacement lies inside an occurrence
      of the pattern in the input, at an offset where pattern and
      replacement differ. */
  lemma {:induction false} ChangeInsideOccurrence(s: string, pat: string, rep: string, i: nat)
    returns (p: nat)
    requires |pat| > 0 && |rep| == |pat|
    requires i < |s| && ReplaceAll(s, pat, rep)[i] != s[i]
    ensures p <= i < p + |pat| && OccursAt(pat, s, p) && rep[i - p] != pat[i - p]
    decreases |s|
  {
    if |s| >= |pat| {
      var k := if s[..|pat|] == pat then |pat| else 1;
      if s[..|pat|] == pat && i < |pat| {
        assert ReplaceAll(s, pat, rep)[i] == rep[i];
        assert s[i] == s[..|pat|][i];
        p := 0;
      } else {
        ReplaceStep(s, pat, rep, k, i);
        p := ChangeInSuffix(s, pat, rep, i, k);
      }
    }
  }

  lemma {:induction false} ChangeInSuffix(s: string, pat: string, rep: string, i: nat, k: nat)
    returns (p: nat)
    requires |pat| > 0 && |rep| == |pat|
    requires 1 <= k <= i < |s|
    requires ReplaceAll(s[k..], pat, rep)[i - k] != s[k..][i - k]
    ensures p <= i < p + |pat| && OccursAt(pat, s, p) && rep[i - p] != pat[i - p]
    decreases |s|, 0
  {
    var q := ChangeInsideOccurrence(s[k..], pat, rep, i - k);
    ShiftOccurrence(s, pat, k, q);
    p := q + k;
  }

  /** One step of the left-to-right scan: past the first `k` characters, the
      output is the replacement of the rest of the input. */
  lemma ReplaceStep(s: string, pat: string, rep: string, k: nat, i: nat)
    requires |pat| > 0 && |rep| == |pat| && |s| >= |pat|
    requires k == if s[..|pat|] == pat then |pat| else 1
    requires k <= i < |s|
    ensures ReplaceAll(s, pat, rep)[i] == ReplaceAll(s[k..], pat, rep)[i - k]
    ensures s[k..][i - k] == s[i]
  {
    if s[..|pat|] == pat {
      StepAtMatch(s, pat, rep, i);
    } else {
      StepAtMismatch(s, pat, rep, i);
    }
  }

  lemma StepAtMatch(s: string, pat: string, rep: string, i: nat)
    requires |pat| > 0 && |rep| == |pat| && |s| >= |pat| && s[..|pat|] == pat
    requires |pat| <= i < |s|
    ensures ReplaceAll(s, pat, rep)[i] == ReplaceAll(s[|pat|..], pat, rep)[i - |pat|]
  {
    var tail := ReplaceAll(s[|pat|..], pat, rep);
    assert ReplaceAll(s, pat, rep) == rep + tail;
  }

  lemma StepAtMismatch(s: string, pat: string, rep: string, i: nat)
    requires |pat| > 0 && |rep| == |pat| && |s| >= |pat| && s[..|pat|] != pat
    requires 1 <= i < |s|
    ensures ReplaceAll(s, pat, rep)[i] == ReplaceAll(s[1..], pat, rep)[i - 1]
  {
    var tail := ReplaceAll(s[1..], pat, rep);
    assert ReplaceAll(s, pat, rep) == [s[0]] + tail;
  }

  /** An occurrence in a suffix, seen from the whole text. */
  lemma OccursInSuffix(s: string, pat: string, k: nat, p: nat)
    requires k <= |s|
    ensures OccursAt(pat, s[k..], p) <==> OccursAt(pat, s, p + k)
  {
    if p + |pat| <= |s| - k {
      assert s[k..][p..p + |pat|] == s[p + k..p + k + |pat|];
    }
  }

  /** The count depends only on where the pattern occurs. */
  lemma {:induction false} CountBySameOccurrences(s: string, t: string, pat: string)
    requires |pat| > 0 && |s| == |t|
    requires forall p: nat :: OccursAt(pat, s, p) <==> OccursAt(pat, t, p)
    ensures CountOf(s, pat) == CountOf(t, pat)
    decreases |s|
  {
    if |s| >= |pat| {
      assert OccursAt(pat, s, 0) <==> OccursAt(pat, t, 0);
      var k := if s[..|pat|] == pat then |pat| else 1;
      forall p: nat ensures OccursAt(pat, s[k..], p) <==> OccursAt(pat, t[k..], p) {
        assert OccursAt(pat, s, p + k) <==> OccursAt(pat, t, p + k);
        OccursInSuffix(s, pat, k, p);
        OccursInSuffix(t, pat, k, p);
      }
      CountBySameOccurrences(s[k..], t[k..], pat);
    }
  }

  /** Turning some `a`s into `b`s, where neither character appears in the
      pattern, leaves every occurrence of the pattern where it was. */
  lemma SameOccurrencesUnderChanges(s: string, r: string, a: char, b: char, pat: string)
    requires OnlyChanges(s, r, a, b) && a !in pat && b !in pat
    ensures forall p: nat :: OccursAt(pat, s, p) <==> OccursAt(pat, r, p)
  {
    forall p: nat ensures OccursAt(pat, s, p) <==> OccursAt(pat, r, p) {
      if p + |pat| <= |s| {
        if OccursAt(pat, s, p) {
          forall k | 0 <= k < |pat| ensures r[p + k] == pat[k] {
            assert s[p + k] == s[p..p + |pat|][k];
          }
          assert r[p..p + |pat|] == pat;
        }
        if OccursAt(pat, r, p) {
          forall k | 0 <= k < |pat| ensures s[p + k] == pat[k] {
            assert r[p + k] == r[p..p + |pat|][k];
          }
          assert s[p..p + |pat|] == pat;
        }
      }
    }
  }

  /** Text free of the pattern is left as it is. */
  lemma ReplaceAbsent(s: string, pat: string, rep: string)
    requires |pat| > 0 && !Contains(s, pat)
    ensures ReplaceAll(s, pat, rep) == s
  {
    CountZeroIffAbsent(s, pat);
    ReplaceWithoutMatch(s, pat, rep);
  }

  /** A character of the pattern that the text lacks rules out every
      occurrence. */
  lemma AbsentByChar(s: string, pat: string, c: char)
    requires c in pat && c !in s
    ensures !Contains(s, pat)
  {
    forall i: nat | i <= |s| ensures !OccursAt(pat, s, i) {
      if i + |pat| <= |s| {
        var k :| 0 <= k < |pat| && pat[k] == c;
        assert s[i..i + |pat|][k] == s[i + k];
      }
    }
  }

  /** The first occurrence is replaced and the search resumes after it. */
  lemma {:induction false} ReplaceFirst(a: string, b: string, pat: string, rep: string)
    requires |pat| > 0
    requires forall p: nat :: p < |a| ==> !OccursAt(pat, a + pat + b, p)
    ensures ReplaceAll(a + pat + b, pat, rep) == a + rep + ReplaceAll(b, pat, rep)
    decreases |a|
  {
    var s := a + pat + b;
    if |a| == 0 {
      assert s == pat + b;
      assert s[..|pat|] == pat;
      assert s[|pat|..] == b;
    } else {
      var t := a[1..] + pat + b;
      assert s[1..] == t;
      assert !OccursAt(pat, s, 0);
      forall p: nat | p < |a| - 1 ensures !OccursAt(pat, t, p) {
        if OccursAt(pat, t, p) {
          ShiftOccurrence(s, pat, 1, p);
        }
      }
      ReplaceFirst(a[1..], b, pat, rep);
      assert ReplaceAll(s, pat, rep) == [s[0]] + ReplaceAll(t, pat, rep);
      assert [a[0]] + (a[1..] + rep + ReplaceAll(b, pat, rep)) == a + rep + ReplaceAll(b, pat, rep);
    }
  }
}

/**
 * The recommendation record and its ordering: results are sorted by score,
 * highest first, with a stable sort, so results of equal score keep the
 * order in which they were produced.
 */
module Ranking {
  import opened Wrappers

  /** One recommended crop, as the evaluator reports it. */
  datatype CropResult = CropResult(
    id: string,
    name: string,
    score: int,
    tempMatch: bool,
    monthMatch: bool,
    idealTemp: string,
    regionTemp: Option<int>,
    water: string,
    soils: string)

  /** Scores never increase from left to right. */
  predicate SortedByScore(s: seq<CropResult>) {
    forall i, j :: 0 <= i < j < |s| ==> s[i].score >= s[j].score
  }

  /** The subsequence of `s` whose score is `k`, in order. */
  function WithScore(s: seq<CropResult>, k: int): seq<CropResult> {
    if |s| == 0 then []
    else WithScore(s[..|s| - 1], k) + (if s[|s| - 1].score == k then [s[|s| - 1]] else [])
  }

  /** `t` with `x` placed after every element whose score is at least x's:
      one step of a stable insertion sort. */
  function InsertByScore(t: seq<CropResult>, x: CropResult): seq<CropResult> {
    if |t| == 0 then [x]
    else if t[|t| - 1].score >= x.score then t + [x]
    else InsertByScore(t[..|t| - 1], x) + [t[|t| - 1]]
  }

  /** The stable sort of `s` by score, highest first (the comparator `b.score - a.score`). */
  function SortByScore(s: seq<CropResult>): seq<CropResult> {
    if |s| == 0 then [] else InsertByScore(SortByScore(s[..|s| - 1]), s[|s| - 1])
  }

  lemma {:induction false} WithScoreAppend(a: seq<CropResult>, b: seq<CropResult>, k: int)
    ensures WithScore(a + b, k) == WithScore(a, k) + WithScore(b, k)
  {
    if |b| > 0 {
      assert (a + b)[..|a + b| - 1] == a + b[..|b| - 1];
      WithScoreAppend(a, b[..|b| - 1], k);
    } else {
      assert a + b == a;
    }
  }

  lemma {:induction false} InsertPermutes(t: seq<CropResult>, x: CropResult)
    ensures multiset(InsertByScore(t, x)) == multiset(t) + multiset{x}
  {
    if |t| > 0 && t[|t| - 1].score < x.score {
      InsertPermutes(t[..|t| - 1], x);
      assert t == t[..|t| - 1] + [t[|t| - 1]];
    }
  }

  lemma {:induction false} InsertKeepsSorted(t: seq<CropResult>, x: CropResult)
    requires SortedByScore(t)
    ensures SortedByScore(InsertByScore(t, x))
  {
    if |t| > 0 && t[|t| - 1].score < x.score {
      var t', last := t[..|t| - 1], t[|t| - 1];
      InsertKeepsSorted(t', x);
      InsertPermutes(t', x);
      var u := InsertByScore(t', x);
      forall i | 0 <= i < |u| ensures u[i].score >= last.score {
        assert u[i] in multiset(t') + multiset{x};
      }
    }
  }

  lemma WithScoreSingle(x: CropResult, k: int)
    ensures WithScore([x], k) == if x.score == k then [x] else []
  {
    assert [x][..0] == [];
  }

  lemma {:induction false} InsertWithScore(t: seq<CropResult>, x: CropResult, k: int)
    ensures WithScore(InsertByScore(t, x), k) == WithScore(t, k) + (if x.score == k then [x] else [])
  {
    var xs := if x.score == k then [x] else [];
    if |t| > 0 && t[|t| - 1].score >= x.score {
      WithScoreSingle(x, k);
      WithScoreAppend(t, [x], k);
    } else if |t| > 0 {
      var t', last := t[..|t| - 1], t[|t| - 1];
      var ls := if last.score == k then [last] else [];
      calc {
        WithScore(InsertByScore(t, x), k);
        WithScore(InsertByScore(t', x) + [last], k);
        { WithScoreAppend(InsertByScore(t', x), [last], k); WithScoreSingle(last, k); }
        WithScore(InsertByScore(t', x), k) + ls;
        { InsertWithScore(t', x, k); }
        WithScore(t', k) + xs + ls;
        { assert xs == [] || ls == []; }
        WithScore(t', k) + ls + xs;
        WithScore(t, k) + xs;
      }
    } else {
      WithScoreSingle(x, k);
    }
  }

  /** The sort's result is ordered by score. */
  lemma {:induction false} SortByScoreSorted(s: seq<CropResult>)
    ensures SortedByScore(SortByScore(s))
  {
    if |s| > 0 {
      SortByScoreSorted(s[..|s| - 1]);
      InsertKeepsSorted(SortByScore(s[..|s| - 1]), s[|s| - 1]);
    }
  }

  /** The sort's result holds exactly the elements of its input. */
  lemma {:induction false} SortByScorePermutes(s: seq<CropResult>)
    ensures multiset(SortByScore(s)) == multiset(s)
  {
    if |s| > 0 {
      SortByScorePermutes(s[..|s| - 1]);
      InsertPermutes(SortByScore(s[..|s| - 1]), s[|s| - 1]);
      assert s == s[..|s| - 1] + [s[|s| - 1]];
    }
  }

  /** Stability: for every score, the elements with that score appear in input order. */
  lemma {:induction false} SortByScoreStable(s: seq<CropResult>, k: int)
    ensures WithScore(SortByScore(s), k) == WithScore(s, k)
  {
    if |s| > 0 {
      SortByScoreStable(s[..|s| - 1], k);
      InsertWithScore(SortByScore(s[..|s| - 1]), s[|s| - 1], k);
    }
  }

  lemma {:induction false} WithScoreMember(s: seq<CropResult>, k: int, x: CropResult)
    ensures x in WithScore(s, k) <==> x in s && x.score == k
  {
    if |s| > 0 {
      WithScoreMember(s[..|s| - 1], k, x);
      assert s == s[..|s| - 1] + [s[|s| - 1]];
    }
  }

  /** Dropping the first element removes it from its own score class only. */
  lemma {:induction false} WithScoreTail(s: seq<CropResult>, k: int)
    requires |s| > 0
    ensures WithScore(s, k) == (if s[0].score == k then [s[0]] else []) + WithScore(s[1..], k)
  {
    assert s == [s[0]] + s[1..];
    WithScoreAppend([s[0]], s[1..], k);
    assert WithScore([s[0]], k) == WithScore([], k) + (if s[0].score == k then [s[0]] else []);
  }

  /** In a sorted sequence no element scores above the first. */
  lemma HeadScoresHighest(u: seq<CropResult>, x: CropResult)
    requires SortedByScore(u)
    requires x in u
    ensures x.score <= u[0].score
  {
    var i :| 0 <= i < |u| && u[i] == x;
    assert i == 0 || u[0].score >= u[i].score;
  }

  /** Two sorted sequences with the same score classes start with the same element. */
  lemma SameClassesSameHead(t: seq<CropResult>, u: seq<CropResult>)
    requires SortedByScore(t) && SortedByScore(u)
    requires |t| > 0 && |u| > 0
    requires WithScore(t, t[0].score) == WithScore(u, t[0].score)
    requires WithScore(t, u[0].score) == WithScore(u, u[0].score)
    ensures t[0] == u[0]
  {
    var m, n := t[0].score, u[0].score;
    assert m <= n by {
      WithScoreMember(t, m, t[0]);
      WithScoreMember(u, m, t[0]);
      HeadScoresHighest(u, t[0]);
    }
    assert n <= m by {
      WithScoreMember(u, n, u[0]);
      WithScoreMember(t, n, u[0]);
      HeadScoresHighest(t, u[0]);
    }
    assert t[0] == WithScore(t, m)[0] by {
      WithScoreTail(t, m);
    }
    assert u[0] == WithScore(u, m)[0] by {
      WithScoreTail(u, m);
    }
  }

  /** A sorted sequence is determined by its per-score subsequences, so the sort is the
      only stable ordering by score: any sorted `t` that keeps each score class of `u`
      in order is `u` itself. */
  lemma {:induction false} SortedClassesDetermine(t: seq<CropResult>, u: seq<CropResult>)
    requires SortedByScore(t) && SortedByScore(u)
    requires forall k :: WithScore(t, k) == WithScore(u, k)
    ensures t == u
    decreases |t|
  {
    if |t| == 0 && |u| > 0 {
      WithScoreMember(u, u[0].score, u[0]);
    } else if |t| > 0 && |u| == 0 {
      WithScoreMember(t, t[0].score, t[0]);
    } else if |t| > 0 {
      SameClassesSameHead(t, u);
      forall k ensures WithScore(t[1..], k) == WithScore(u[1..], k) {
        WithScoreTail(t, k);
        WithScoreTail(u, k);
        var h := if t[0].score == k then [t[0]] else [];
        assert WithScore(t[1..], k) == (h + WithScore(t[1..], k))[|h|..];
        assert WithScore(u[1..], k) == (h + WithScore(u[1..], k))[|h|..];
      }
      SortedClassesDetermine(t[1..], u[1..]);
      assert t == [t[0]] + t[1..];
      assert u == [u[0]] + u[1..];
    }
  }

  /** Passing one lower-scoring element moves the insertion point one place left. */
  lemma InsertStep(t: seq<CropResult>, x: CropResult, j: int)
    requires 0 < j <= |t| && t[j - 1].score < x.score
    requires InsertByScore(t, x) == InsertByScore(t[..j], x) + t[j..]
    ensures InsertByScore(t, x) == InsertByScore(t[..j - 1], x) + t[j - 1..]
  {
    assert t[..j][..j - 1] == t[..j - 1];
    assert t[j - 1..] == [t[j - 1]] + t[j..];
  }

  /** When the last element scores at least as high as `x`, `x` goes at the end. */
  lemma InsertStop(p: seq<CropResult>, x: CropResult)
    requires |p| == 0 || p[|p| - 1].score >= x.score
    ensures InsertByScore(p, x) == p + [x]
  {
  }

  /** Swapping the two elements at j-1 and j of the working sequence moves `x` one place left. */
  lemma SwapLeft(t: seq<CropResult>, x: CropResult, r: seq<CropResult>, j: int)
    requires 0 < j <= |t|
    ensures (t[..j] + [x] + t[j..] + r)[j - 1 := x][j := t[j - 1]] == t[..j - 1] + [x] + t[j - 1..] + r
  {
  }

  /** Moves a[i] left past the elements of lower score just before it: the inner
      step of the insertion sort. */
  method InsertAt(a: array<CropResult>, i: int)
    requires 0 <= i < a.Length
    modifies a
    ensures a[..i + 1] == InsertByScore(old(a[..i]), old(a[i]))
    ensures a[i + 1..] == old(a[i + 1..])
  {
    ghost var t, r := a[..i], a[i + 1..];
    var x := a[i];
    var j := i;
    assert a[..] == t[..j] + [x] + t[j..] + r by {
      assert t[..j] == t && t[j..] == [];
      assert a[..] == a[..i] + [a[i]] + a[i + 1..];
    }
    assert InsertByScore(t, x) == InsertByScore(t[..j], x) + t[j..] by {
      assert t[..j] == t && t[j..] == [];
    }
    while j > 0 && a[j - 1].score < x.score
      invariant 0 <= j <= i
      invariant a[..] == t[..j] + [x] + t[j..] + r
      invariant InsertByScore(t, x) == InsertByScore(t[..j], x) + t[j..]
    {
      ghost var before := a[..];
      assert a[j - 1] == t[j - 1] by {
        assert before[j - 1] == (t[..j] + [x] + t[j..] + r)[j - 1];
      }
      InsertStep(t, x, j);
      a[j - 1], a[j] := a[j], a[j - 1];
      assert a[..] == t[..j - 1] + [x] + t[j - 1..] + r by {
        assert a[..] == before[j - 1 := x][j := t[j - 1]];
        SwapLeft(t, x, r, j);
      }
      j := j - 1;
    }
    ghost var after := a[..];
    assert InsertByScore(t, x) == t[..j] + [x] + t[j..] by {
      if j > 0 {
        assert a[j - 1] == after[j - 1] == (t[..j] + [x] + t[j..] + r)[j - 1] == t[j - 1];
        assert t[..j][j - 1] == t[j - 1];
      }
      InsertStop(t[..j], x);
    }
    assert a[..i + 1] == t[..j] + [x] + t[j..] by {
      assert a[..i + 1] == after[..i + 1];
    }
    assert a[i + 1..] == r by {
      assert a[i + 1..] == after[i + 1..];
    }
  }

  /** Sorts `a` in place by score, highest first, keeping equal scores in their
      original order (the stable `results.sort`). */
  method SortInPlace(a: array<CropResult>)
    modifies a
    ensures a[..] == SortByScore(old(a[..]))
  {
    ghost var s := a[..];
    var i := 0;
    while i < a.Length
      invariant 0 <= i <= a.Length
      invariant a[..i] == SortByScore(s[..i])
      invariant a[i..] == s[i..]
    {
      assert a[i] == s[i];
      InsertAt(a, i);
      assert s[..i + 1][..i] == s[..i];
      i := i + 1;
    }
    assert s[..a.Length] == s;
  }
}

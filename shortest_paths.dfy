/**
 * What Floyd–Warshall computes. `Dist(W, i, j, k)` is the recurrence that the `k`-th round
 * of the triple loop establishes; the lemmas below show it is the least weight of an
 * `i`-to-`j` walk whose intermediate vertices all lie below `k`, so that after the last
 * round every entry is a true shortest distance.
 */
module ShortestPaths {
  import opened Matrices
  import opened Running

  /**
   * The Floyd–Warshall recurrence: the value entry `(i, j)` holds after rounds `0 .. k-1`,
   * round `m` replacing it by `Min(d[i,j], d[i,m] + d[m,j])`.
   */
  ghost function Dist(W: Matrix, i: nat, j: nat, k: nat): int
    requires Square(W) && i < |W| && j < |W| && k <= |W|
    decreases k
  {
    if k == 0 then W[i][j]
    else Min(Dist(W, i, j, k - 1), Dist(W, i, k - 1, k - 1) + Dist(W, k - 1, j, k - 1))
  }

  /** The matrix after all rounds. */
  ghost function ShortestDistances(W: Matrix): (D: Matrix)
    requires Square(W)
    ensures |D| == |W| && Square(D)
    ensures forall i, j :: 0 <= i < |W| && 0 <= j < |W| ==> D[i][j] == Dist(W, i, j, |W|)
  {
    seq(|W|, i requires 0 <= i < |W| => seq(|W|, j requires 0 <= j < |W| => Dist(W, i, j, |W|)))
  }

  // ---------------------------------------------------------------------------
  // Walks in the complete weighted graph of a matrix

  /** Every vertex of `p` is a row index of `W`. */
  ghost predicate OnVertices(W: Matrix, p: seq<nat>)
  {
    forall t :: 0 <= t < |p| ==> p[t] < |W|
  }

  /**
   * `p` is a walk of at least one step from `i` to `j` in the complete graph whose
   * edge costs are the entries of `W`, and every intermediate vertex is below `k`.
   */
  ghost predicate IsWalk(W: Matrix, p: seq<nat>, i: nat, j: nat, k: nat)
  {
    && OnVertices(W, p)
    && 2 <= |p| && p[0] == i && p[|p| - 1] == j
    && (forall t :: 0 < t < |p| - 1 ==> p[t] < k)
  }

  /** The sum of the costs of the steps of `p`. */
  ghost function WalkWeight(W: Matrix, p: seq<nat>): int
    requires Square(W) && OnVertices(W, p)
  {
    if |p| < 2 then 0 else W[p[0]][p[1]] + WalkWeight(W, p[1..])
  }

  /** Cutting a walk at position `a` splits its weight. */
  lemma {:induction false} WeightSplit(W: Matrix, p: seq<nat>, a: nat)
    requires Square(W) && OnVertices(W, p) && a < |p|
    ensures WalkWeight(W, p) == WalkWeight(W, p[..a + 1]) + WalkWeight(W, p[a..])
    decreases a
  {
    if a == 0 {
      assert p[0..] == p;
    } else {
      WeightSplit(W, p[1..], a - 1);
      assert p[1..][..a] == p[..a + 1][1..];
      assert p[1..][a - 1..] == p[a..];
    }
  }

  /** With no negative costs no walk has negative weight. */
  lemma {:induction false} WeightNonNegative(W: Matrix, p: seq<nat>)
    requires Square(W) && NonNegative(W) && OnVertices(W, p)
    ensures 0 <= WalkWeight(W, p)
  {
    if |p| >= 2 {
      WeightNonNegative(W, p[1..]);
    }
  }

  /** With no negative costs, no single step of a walk costs more than the whole walk. */
  lemma {:induction false} StepAtMostWeight(W: Matrix, p: seq<nat>, t: nat)
    requires Square(W) && NonNegative(W) && OnVertices(W, p) && t + 1 < |p|
    ensures W[p[t]][p[t + 1]] <= WalkWeight(W, p)
    decreases t
  {
    if t == 0 {
      WeightNonNegative(W, p[1..]);
    } else {
      StepAtMostWeight(W, p[1..], t - 1);
      assert p[1..][t - 1] == p[t] && p[1..][t] == p[t + 1];
    }
  }

  /** Two walks that meet at `m < k` join into one walk whose weight is the sum. */
  lemma JoinWalks(W: Matrix, p1: seq<nat>, p2: seq<nat>, i: nat, m: nat, j: nat, k: nat)
    returns (p: seq<nat>)
    requires Square(W) && IsWalk(W, p1, i, m, k) && IsWalk(W, p2, m, j, k) && m < k
    ensures IsWalk(W, p, i, j, k)
    ensures WalkWeight(W, p) == WalkWeight(W, p1) + WalkWeight(W, p2)
  {
    p := p1 + p2[1..];
    forall t | 0 < t < |p| - 1
      ensures p[t] < k
    {
      if t >= |p1| {
        assert p[t] == p2[t - |p1| + 1];
      }
    }
    assert p[..|p1|] == p1;
    assert p[|p1| - 1..] == p2;
    WeightSplit(W, p, |p1| - 1);
  }

  /** Every value of the recurrence is the weight of some walk with intermediates below `k`. */
  lemma {:induction false} DistAttained(W: Matrix, i: nat, j: nat, k: nat) returns (p: seq<nat>)
    requires Square(W) && i < |W| && j < |W| && k <= |W|
    ensures IsWalk(W, p, i, j, k) && WalkWeight(W, p) == Dist(W, i, j, k)
    decreases k
  {
    if k == 0 {
      p := [i, j];
      assert p[1..] == [j];
    } else {
      var m := k - 1;
      if Dist(W, i, j, m) <= Dist(W, i, m, m) + Dist(W, m, j, m) {
        p := DistAttained(W, i, j, m);
      } else {
        var p1 := DistAttained(W, i, m, m);
        var p2 := DistAttained(W, m, j, m);
        p := JoinWalks(W, p1, p2, i, m, j, k);
      }
    }
  }

  /** The first position of `x` in `s`. */
  ghost function IndexOf(s: seq<nat>, x: nat): (a: nat)
    requires x in s
    ensures a < |s| && s[a] == x
    ensures forall t :: 0 <= t < a ==> s[t] != x
  {
    if s[0] == x then 0 else 1 + IndexOf(s[1..], x)
  }

  /** With no negative costs no value of the recurrence is negative. */
  lemma {:induction false} DistNonNegative(W: Matrix, i: nat, j: nat, k: nat)
    requires Square(W) && NonNegative(W) && i < |W| && j < |W| && k <= |W|
    ensures 0 <= Dist(W, i, j, k)
    decreases k
  {
    if k > 0 {
      DistNonNegative(W, i, j, k - 1);
      DistNonNegative(W, i, k - 1, k - 1);
      DistNonNegative(W, k - 1, j, k - 1);
    }
  }

  /**
   * Round `m` leaves row `m` and column `m` as they were, because `Dist(W, m, m, m)` is not
   * negative; this is why the in-place update may read `d[i,m]` and `d[m,j]` after
   * having overwritten them in the same round.
   */
  lemma PivotStable(W: Matrix, m: nat, i: nat, j: nat)
    requires Square(W) && NonNegative(W) && m < |W| && i < |W| && j < |W|
    ensures Dist(W, i, m, m + 1) == Dist(W, i, m, m)
    ensures Dist(W, m, j, m + 1) == Dist(W, m, j, m)
  {
    DistNonNegative(W, m, m, m);
  }

  /** The first interior position of `p` that visits `m`, when there is one. */
  lemma FirstVisit(p: seq<nat>, m: nat) returns (a: nat)
    requires exists t :: 0 < t < |p| - 1 && p[t] == m
    ensures 0 < a < |p| - 1 && p[a] == m
    ensures forall t :: 0 < t < a ==> p[t] != m
  {
    var interior := p[1..|p| - 1];
    var t :| 0 < t < |p| - 1 && p[t] == m;
    assert interior[t - 1] == m;
    a := 1 + IndexOf(interior, m);
    forall t | 0 < t < a
      ensures p[t] != m
    {
      assert p[t] == interior[t - 1];
    }
  }

  /**
   * Cutting a walk through `k - 1` at its first visit of `k - 1` gives a walk into
   * `k - 1` with intermediates below `k - 1` and a walk out of it with intermediates
   * below `k`.
   */
  lemma SplitWalk(W: Matrix, p: seq<nat>, i: nat, j: nat, k: nat, a: nat)
    requires Square(W) && IsWalk(W, p, i, j, k) && 0 < k
    requires 0 < a < |p| - 1 && p[a] == k - 1
    requires forall t :: 0 < t < a ==> p[t] != k - 1
    ensures IsWalk(W, p[..a + 1], i, k - 1, k - 1)
    ensures IsWalk(W, p[a..], k - 1, j, k) && |p[a..]| < |p|
    ensures WalkWeight(W, p) == WalkWeight(W, p[..a + 1]) + WalkWeight(W, p[a..])
  {
    var prefix, suffix := p[..a + 1], p[a..];
    forall t | 0 < t < |prefix| - 1
      ensures prefix[t] < k - 1
    {
      assert prefix[t] == p[t];
    }
    forall t | 0 < t < |suffix| - 1
      ensures suffix[t] < k
    {
      assert suffix[t] == p[a + t];
    }
    WeightSplit(W, p, a);
  }

  /** A walk that never passes through `k - 1` has its intermediates below `k - 1`. */
  lemma NarrowWalk(W: Matrix, p: seq<nat>, i: nat, j: nat, k: nat)
    requires IsWalk(W, p, i, j, k) && 0 < k
    requires forall t :: 0 < t < |p| - 1 ==> p[t] != k - 1
    ensures IsWalk(W, p, i, j, k - 1)
  {
  }

  /**
   * With no negative costs, no walk with intermediates below `k` weighs less than
   * the recurrence.
   */
  lemma {:induction false} DistLowerBound(W: Matrix, p: seq<nat>, i: nat, j: nat, k: nat)
    requires Square(W) && NonNegative(W) && i < |W| && j < |W| && k <= |W|
    requires IsWalk(W, p, i, j, k)
    ensures Dist(W, i, j, k) <= WalkWeight(W, p)
    decreases k, |p|
  {
    if k == 0 {
      var second := p[1];
      assert |p| == 2;
      assert p[1..] == [j];
    } else {
      var m := k - 1;
      if exists t :: 0 < t < |p| - 1 && p[t] == m {
        var a := FirstVisit(p, m);
        SplitWalk(W, p, i, j, k, a);
        DistLowerBound(W, p[..a + 1], i, m, m);
        DistLowerBound(W, p[a..], m, j, k);
        PivotStable(W, m, i, j);
      } else {
        NarrowWalk(W, p, i, j, k);
        DistLowerBound(W, p, i, j, m);
      }
    }
  }

  /**
   * After all rounds, entry `(i, j)` is the minimum weight of an `i`-to-`j` walk:
   * some walk has exactly that weight and none weighs less.
   */
  lemma ShortestWalk(W: Matrix, i: nat, j: nat) returns (p: seq<nat>)
    requires Square(W) && NonNegative(W) && i < |W| && j < |W|
    ensures IsWalk(W, p, i, j, |W|) && WalkWeight(W, p) == ShortestDistances(W)[i][j]
    ensures forall q :: IsWalk(W, q, i, j, |W|) ==> ShortestDistances(W)[i][j] <= WalkWeight(W, q)
  {
    p := DistAttained(W, i, j, |W|);
    forall q | IsWalk(W, q, i, j, |W|)
      ensures ShortestDistances(W)[i][j] <= WalkWeight(W, q)
    {
      DistLowerBound(W, q, i, j, |W|);
    }
  }

  /** The final matrix admits no further relaxation: the triangle inequality holds. */
  lemma TriangleInequality(W: Matrix, i: nat, j: nat, m: nat)
    requires Square(W) && NonNegative(W) && i < |W| && j < |W| && m < |W|
    ensures ShortestDistances(W)[i][j] <= ShortestDistances(W)[i][m] + ShortestDistances(W)[m][j]
  {
    var n := |W|;
    var p1 := DistAttained(W, i, m, n);
    var p2 := DistAttained(W, m, j, n);
    var p := JoinWalks(W, p1, p2, i, m, j, n);
    DistLowerBound(W, p, i, j, n);
  }

  /** Each round can only lower an entry: every value is at most the initial cost. */
  lemma {:induction false} DistAtMost(W: Matrix, i: nat, j: nat, k: nat)
    requires Square(W) && i < |W| && j < |W| && k <= |W|
    ensures Dist(W, i, j, k) <= W[i][j]
    decreases k
  {
    if k > 0 {
      DistAtMost(W, i, j, k - 1);
    }
  }

  /** A zero diagonal with no negative costs stays zero. */
  lemma DiagonalZero(W: Matrix, i: nat)
    requires Square(W) && NonNegative(W) && i < |W| && W[i][i] == 0
    ensures ShortestDistances(W)[i][i] == 0
  {
    DistAtMost(W, i, i, |W|);
    DistNonNegative(W, i, i, |W|);
  }

  /** The final matrix is not changed by any number of further rounds. */
  lemma {:induction false} FixedPoint(W: Matrix, i: nat, j: nat, k: nat)
    requires Square(W) && NonNegative(W) && i < |W| && j < |W| && k <= |W|
    ensures Dist(ShortestDistances(W), i, j, k) == ShortestDistances(W)[i][j]
    decreases k
  {
    if k > 0 {
      var m := k - 1;
      FixedPoint(W, i, j, m);
      FixedPoint(W, i, m, m);
      FixedPoint(W, m, j, m);
      TriangleInequality(W, i, j, m);
    }
  }

  /** Running Floyd–Warshall a second time on its own result changes nothing. */
  lemma Idempotent(W: Matrix)
    requires Square(W) && NonNegative(W)
    ensures NonNegative(ShortestDistances(W))
    ensures ShortestDistances(ShortestDistances(W)) == ShortestDistances(W)
  {
    var D := ShortestDistances(W);
    forall i, j | 0 <= i < |W| && 0 <= j < |W|
      ensures 0 <= D[i][j] && ShortestDistances(D)[i][j] == D[i][j]
    {
      DistNonNegative(W, i, j, |W|);
      FixedPoint(W, i, j, |W|);
    }
    forall i | 0 <= i < |W|
      ensures ShortestDistances(D)[i] == D[i]
    {
    }
  }

  /** `M` holds the values of the recurrence on `W` after rounds `0 .. k-1`. */
  ghost predicate ValuesAfter(W: Matrix, k: nat, M: Matrix)
    requires Square(W) && k <= |W| && |M| == |W| && Square(M)
  {
    forall i, j :: 0 <= i < |W| && 0 <= j < |W| ==> M[i][j] == Dist(W, i, j, k)
  }

  /** `M'` is `M` relaxed through vertex `k`, entry by entry, as one round of the loop does. */
  ghost predicate RelaxedThrough(M: Matrix, k: nat, M': Matrix)
    requires Square(M) && k < |M| && |M'| == |M| && Square(M')
  {
    forall i, j :: 0 <= i < |M| && 0 <= j < |M| ==> M'[i][j] == Min(M[i][j], M[i][k] + M[k][j])
  }

  /**
   * One round, for matrices written out as values: relaxing the values after rounds
   * `0 .. k-1` through vertex `k` gives the values after round `k`.
   */
  lemma RoundStep(W: Matrix, k: nat, M: Matrix, M': Matrix)
    requires Square(W) && k < |W| && |M| == |W| && Square(M) && |M'| == |W| && Square(M')
    requires ValuesAfter(W, k, M) && RelaxedThrough(M, k, M')
    ensures ValuesAfter(W, k + 1, M')
  {
    forall i, j | 0 <= i < |W| && 0 <= j < |W|
      ensures M'[i][j] == Dist(W, i, j, k + 1)
    {
      RoundEntry(W, k, M, M', i, j);
    }
  }

  /** One entry of `RoundStep`. */
  lemma RoundEntry(W: Matrix, k: nat, M: Matrix, M': Matrix, i: nat, j: nat)
    requires Square(W) && k < |W| && |M| == |W| && Square(M) && |M'| == |W| && Square(M')
    requires i < |W| && j < |W|
    requires M[i][j] == Dist(W, i, j, k) && M[i][k] == Dist(W, i, k, k) && M[k][j] == Dist(W, k, j, k)
    requires M'[i][j] == Min(M[i][j], M[i][k] + M[k][j])
    ensures M'[i][j] == Dist(W, i, j, k + 1)
  {
  }
}

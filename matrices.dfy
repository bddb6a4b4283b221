/** Square integer matrices as values, and the value held by a 2-D array. */
module Matrices {

  /** A cost or distance matrix as a value: `W[i][j]` is the entry in row `i`, column `j`. */
  type Matrix = seq<seq<int>>

  /** Every row has as many entries as there are rows. */
  ghost predicate Square(W: Matrix)
  {
    forall i :: 0 <= i < |W| ==> |W[i]| == |W|
  }

  /** No entry is negative. */
  ghost predicate NonNegative(W: Matrix)
    requires Square(W)
  {
    forall i, j :: 0 <= i < |W| && 0 <= j < |W| ==> 0 <= W[i][j]
  }

  /** The top-left `n`-by-`n` block of the 2-D array `m`, as a value. */
  ghost function Block(m: array2<int>, n: nat): (W: Matrix)
    requires n <= m.Length0 && n <= m.Length1
    reads m
    ensures |W| == n && Square(W)
    ensures forall i, j :: 0 <= i < n && 0 <= j < n ==> W[i][j] == m[i, j]
  {
    seq(n, i requires 0 <= i < n reads m => seq(n, j requires 0 <= j < n reads m => m[i, j]))
  }
}

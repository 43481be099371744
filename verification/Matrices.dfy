/** Two-dimensional arrays and their contents as values. */
module Matrices {
  type Matrix = seq<seq<int>>

  ghost predicate Square(w: Matrix) {
    forall i :: 0 <= i < |w| ==> |w[i]| == |w|
  }

  ghost function Rows(a: array2<int>): (w: Matrix)
    reads a
    ensures |w| == a.Length0
    ensures forall i :: 0 <= i < |w| ==> |w[i]| == a.Length1
    ensures forall i, j :: 0 <= i < a.Length0 && 0 <= j < a.Length1 ==> w[i][j] == a[i, j]
  {
    seq(a.Length0, i requires 0 <= i < a.Length0 reads a =>
      seq(a.Length1, j requires 0 <= j < a.Length1 reads a => a[i, j]))
  }
}

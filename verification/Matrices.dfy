/** A two-dimensional array as a sequence of rows. */
module Matrices {
  function Rows(a: array2<int>): (r: seq<seq<int>>)
    reads a
    ensures |r| == a.Length0 && forall j :: 0 <= j < a.Length0 ==> |r[j]| == a.Length1
    ensures forall j, k :: 0 <= j < a.Length0 && 0 <= k < a.Length1 ==> r[j][k] == a[j, k]
  {
    seq(a.Length0, j requires 0 <= j < a.Length0 reads a =>
      seq(a.Length1, k requires 0 <= k < a.Length1 reads a => a[j, k]))
  }
}

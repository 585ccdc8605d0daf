/** The comparison the driver makes for every size it benchmarks: the parallel
    and the sequential multiplier applied to the same operands give the same
    matrix. */
module Equivalence {
  import opened Matrix
  import opened Permutations
  import SingleThreaded
  import MultiThreaded

  /** Runs both multipliers on the same operands, the parallel one with
      collection order `order`. The two results are equal, and cell by cell
      both are the same in-order accumulation, so the agreement does not rest
      on reassociating the additions. */
  method CompareMultipliers(a: Matrix, b: Matrix, order: seq<nat>) returns (multi: Matrix, single: Matrix)
    requires Conformable(a, b)
    requires IsPermutation(order, |a|)
    ensures multi == single
    ensures multi == Product(a, b)
    ensures |multi| == |a|
    ensures forall i :: 0 <= i < |a| ==> |multi[i]| == |b[0]|
    ensures forall i, j :: 0 <= i < |a| && 0 <= j < |b[0]| ==> multi[i][j] == Fold(a[i], b, j, |b|)
  {
    multi := MultiThreaded.MultiplyMultiThreaded(a, b, order);
    single := SingleThreaded.MultiplySingleThreaded(a, b);
  }
}

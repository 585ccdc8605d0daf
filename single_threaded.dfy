/** The sequential multiplier: a zero-filled result buffer updated cell by cell
    in a triple loop. It is the oracle the parallel multiplier is compared with. */
module SingleThreaded {
  import opened Matrix

  /** Allocates an |a|-by-|b[0]| buffer of zeros and, for each row i, column j
      and inner index k in increasing order, adds a[i][k] * b[k][j] to cell
      (i, j). Every cell therefore holds the in-order accumulation `Fold`, which
      is the textbook product. */
  method MultiplySingleThreaded(a: Matrix, b: Matrix) returns (result: Matrix)
    requires Conformable(a, b)
    ensures |result| == |a|
    ensures forall i :: 0 <= i < |a| ==> |result[i]| == |b[0]|
    ensures forall i, j :: 0 <= i < |a| && 0 <= j < |b[0]| ==> result[i][j] == Fold(a[i], b, j, |b|)
    ensures result == Product(a, b)
  {
    var n, m, inner := |a|, |b[0]|, |b|;
    result := Zero(n, m);
    for i := 0 to n
      invariant |result| == n
      invariant forall r :: 0 <= r < n ==> |result[r]| == m
      invariant forall r, c :: 0 <= r < i && 0 <= c < m ==> result[r][c] == Fold(a[r], b, c, inner)
      invariant forall r :: i <= r < n ==> result[r] == Zero(n, m)[r]
    {
      ghost var rowsBefore := result;
      for j := 0 to m
        invariant |result| == n
        invariant forall r :: 0 <= r < n && r != i ==> result[r] == rowsBefore[r]
        invariant |result[i]| == m
        invariant forall c :: 0 <= c < j ==> result[i][c] == Fold(a[i], b, c, inner)
        invariant forall c :: j <= c < m ==> result[i][c] == 0
      {
        ghost var rowBefore := result[i];
        for k := 0 to inner
          invariant |result| == n
          invariant forall r :: 0 <= r < n && r != i ==> result[r] == rowsBefore[r]
          invariant |result[i]| == m
          invariant forall c :: 0 <= c < m && c != j ==> result[i][c] == rowBefore[c]
          invariant result[i][j] == Fold(a[i], b, j, k)
        {
          result := result[i := result[i][j := result[i][j] + a[i][k] * b[k][j]]];
        }
      }
    }
    forall i | 0 <= i < n
      ensures result[i] == Product(a, b)[i]
    {
      forall j | 0 <= j < m
        ensures result[i][j] == Product(a, b)[i][j]
      {
        FoldThenSum(a[i], b, j, inner);
      }
    }
  }
}

/** Matrices as nested sequences, the shape conditions under which the two
    multipliers stay in bounds, the in-order accumulation both of them perform,
    and the mathematical matrix product they are measured against.

    The element type of the program is generic over "a default value, + and *";
    its only instantiation is i64, modelled here by unbounded `int` with
    default value 0. */
module Matrix {

  /** A matrix is the sequence of its rows. Nothing forces the rows to have one
      length: the multipliers never check shapes, so neither does the type. */
  type Matrix = seq<seq<int>>

  /** Every index that computing the product of `row` with `b` touches is in
      range: `b[0]` exists, and when `b` has any column, `row` has an entry for
      every row of `b` and every row of `b` is at least as long as `b[0]`. */
  predicate RowConformable(row: seq<int>, b: Matrix)
  {
    |b| > 0 &&
    (|b[0]| > 0 ==> |row| >= |b| && forall k :: 0 <= k < |b| ==> |b[k]| >= |b[0]|)
  }

  /** Every row of `a` may be multiplied with `b` (vacuous when `a` is empty). */
  predicate RowsConformable(a: Matrix, b: Matrix)
  {
    forall i :: 0 <= i < |a| ==> RowConformable(a[i], b)
  }

  /** What the sequential multiplier needs: `b[0]` exists even when `a` is empty. */
  predicate Conformable(a: Matrix, b: Matrix)
  {
    |b| > 0 && RowsConformable(a, b)
  }

  /** The accumulation both multipliers perform for the cell in column `j`:
      start from 0 and add `row[t] * b[t][j]` for t = 0, 1, ..., k - 1, in that
      order, each addend on the right of the running total. */
  function Fold(row: seq<int>, b: Matrix, j: nat, k: nat): int
    requires RowConformable(row, b) && j < |b[0]| && k <= |b|
  {
    if k == 0 then 0 else Fold(row, b, j, k - 1) + row[k - 1] * b[k - 1][j]
  }

  /** The textbook sum of `row[t] * b[t][j]` over t in [lo, |b|), defined
      independently of `Fold`, from the front. */
  function Sum(row: seq<int>, b: Matrix, j: nat, lo: nat): int
    requires RowConformable(row, b) && j < |b[0]| && lo <= |b|
    decreases |b| - lo
  {
    if lo == |b| then 0 else row[lo] * b[lo][j] + Sum(row, b, j, lo + 1)
  }

  /** The in-order prefix and the rest of the sum make up the whole sum; with
      k == |b| the accumulation equals the textbook sum. */
  lemma {:induction false} FoldThenSum(row: seq<int>, b: Matrix, j: nat, k: nat)
    requires RowConformable(row, b) && j < |b[0]| && k <= |b|
    ensures Fold(row, b, j, k) + Sum(row, b, j, k) == Sum(row, b, j, 0)
  {
    if k > 0 {
      FoldThenSum(row, b, j, k - 1);
    }
  }

  /** Row i of the mathematical product, for `row` = a[i]. */
  function ReferenceRow(row: seq<int>, b: Matrix): seq<int>
    requires RowConformable(row, b)
  {
    seq(|b[0]|, j requires 0 <= j < |b[0]| => Sum(row, b, j, 0))
  }

  /** The mathematical product C[i][j] = sum over t of a[i][t] * b[t][j]. */
  function Product(a: Matrix, b: Matrix): Matrix
    requires RowsConformable(a, b)
  {
    seq(|a|, i requires 0 <= i < |a| => ReferenceRow(a[i], b))
  }

  /** The n-by-n identity matrix. */
  function Identity(n: nat): Matrix
  {
    seq(n, i => seq(n, j => if i == j then 1 else 0))
  }

  /** The n-by-m matrix of zeros, the buffer the sequential multiplier starts from. */
  function Zero(n: nat, m: nat): Matrix
  {
    seq(n, _ => seq(m, _ => 0))
  }

  lemma {:induction false} SumAgainstIdentityColumn(row: seq<int>, m: nat, j: nat, lo: nat)
    requires |row| == m && j < m && lo <= m
    requires RowConformable(row, Identity(m))
    ensures Sum(row, Identity(m), j, lo) == if lo <= j then row[j] else 0
    decreases m - lo
  {
    if lo < m {
      SumAgainstIdentityColumn(row, m, j, lo + 1);
    }
  }

  /** Multiplying on the right by the identity gives back the left operand. */
  lemma RightIdentity(a: Matrix, m: nat)
    requires m > 0
    requires forall i :: 0 <= i < |a| ==> |a[i]| == m
    ensures RowsConformable(a, Identity(m))
    ensures Product(a, Identity(m)) == a
  {
    var p := Product(a, Identity(m));
    forall i | 0 <= i < |a|
      ensures p[i] == a[i]
    {
      forall j | 0 <= j < m
        ensures p[i][j] == a[i][j]
      {
        SumAgainstIdentityColumn(a[i], m, j, 0);
      }
    }
  }

  lemma {:induction false} SumOfIdentityRow(b: Matrix, i: nat, j: nat, lo: nat)
    requires i < |b| && RowConformable(Identity(|b|)[i], b) && j < |b[0]| && lo <= |b|
    ensures Sum(Identity(|b|)[i], b, j, lo) == if lo <= i then b[i][j] else 0
    decreases |b| - lo
  {
    if lo < |b| {
      SumOfIdentityRow(b, i, j, lo + 1);
    }
  }

  /** Multiplying a rectangular matrix on the left by the identity gives it back. */
  lemma LeftIdentity(b: Matrix)
    requires |b| > 0
    requires forall k :: 0 <= k < |b| ==> |b[k]| == |b[0]|
    ensures RowsConformable(Identity(|b|), b)
    ensures Product(Identity(|b|), b) == b
  {
    var p := Product(Identity(|b|), b);
    forall i | 0 <= i < |b|
      ensures p[i] == b[i]
    {
      forall j | 0 <= j < |b[0]|
        ensures p[i][j] == b[i][j]
      {
        SumOfIdentityRow(b, i, j, 0);
      }
    }
  }

  lemma {:induction false} SumOfVanishingTerms(row: seq<int>, b: Matrix, j: nat, lo: nat)
    requires RowConformable(row, b) && j < |b[0]| && lo <= |b|
    requires forall t :: lo <= t < |b| ==> row[t] == 0 || b[t][j] == 0
    ensures Sum(row, b, j, lo) == 0
    decreases |b| - lo
  {
    if lo < |b| {
      SumOfVanishingTerms(row, b, j, lo + 1);
    }
  }

  /** A zero right operand gives a zero product of the right shape. */
  lemma RightZero(a: Matrix, k: nat, m: nat)
    requires k > 0
    requires forall i :: 0 <= i < |a| ==> |a[i]| >= k
    ensures RowsConformable(a, Zero(k, m))
    ensures Product(a, Zero(k, m)) == Zero(|a|, m)
  {
    var p := Product(a, Zero(k, m));
    forall i | 0 <= i < |a|
      ensures p[i] == Zero(|a|, m)[i]
    {
      forall j | 0 <= j < m
        ensures p[i][j] == 0
      {
        SumOfVanishingTerms(a[i], Zero(k, m), j, 0);
      }
    }
  }

  /** A zero left operand gives a zero product of the right shape. */
  lemma LeftZero(n: nat, b: Matrix)
    requires |b| > 0
    requires forall k :: 0 <= k < |b| ==> |b[k]| >= |b[0]|
    ensures RowsConformable(Zero(n, |b|), b)
    ensures Product(Zero(n, |b|), b) == Zero(n, |b[0]|)
  {
    var p := Product(Zero(n, |b|), b);
    forall i | 0 <= i < n
      ensures p[i] == Zero(n, |b[0]|)[i]
    {
      forall j | 0 <= j < |b[0]|
        ensures p[i][j] == 0
      {
        SumOfVanishingTerms(Zero(n, |b|)[i], b, j, 0);
      }
    }
  }

  /** The two worked examples: a 2-by-2 product and a 1-by-1 product. */
  lemma SmallProducts()
    ensures Product([[1, 2], [3, 4]], [[5, 6], [7, 8]]) == [[19, 22], [43, 50]]
    ensures Product([[2]], [[3]]) == [[6]]
  {
    var p := Product([[1, 2], [3, 4]], [[5, 6], [7, 8]]);
    assert p[0] == [19, 22];
    assert p[1] == [43, 50];
    var q := Product([[2]], [[3]]);
    assert q[0] == [6];
  }

  /** The range of the 16-bit signed integers the driver draws entries from. */
  predicate IsI16(x: int)
  {
    -0x8000 <= x < 0x8000
  }

  /** The range of the 64-bit signed integers the driver multiplies in. */
  predicate IsI64(x: int)
  {
    -0x8000_0000_0000_0000 <= x < 0x8000_0000_0000_0000
  }

  lemma MagnitudeBound(x: nat, y: nat, m: nat)
    requires x <= m && y <= m
    ensures x * y <= m * m
  {
  }

  lemma ProductOfI16(x: int, y: int)
    requires IsI16(x) && IsI16(y)
    ensures -0x4000_0000 <= x * y <= 0x4000_0000
  {
    var ax: nat := if x < 0 then -x else x;
    var ay: nat := if y < 0 then -y else y;
    MagnitudeBound(ax, ay, 0x8000);
    assert x * y == ax * ay || x * y == -(ax * ay);
  }

  /** With 16-bit entries every partial accumulation of k terms stays within
      k * 2^30 in absolute value. */
  lemma {:induction false} FoldBounded(row: seq<int>, b: Matrix, j: nat, k: nat)
    requires RowConformable(row, b) && j < |b[0]| && k <= |b|
    requires forall t :: 0 <= t < |b| ==> IsI16(row[t]) && IsI16(b[t][j])
    ensures -(k as int) * 0x4000_0000 <= Fold(row, b, j, k) <= (k as int) * 0x4000_0000
  {
    if k > 0 {
      FoldBounded(row, b, j, k - 1);
      ProductOfI16(row[k - 1], b[k - 1][j]);
    }
  }

  /** For the inputs the driver feeds (16-bit entries, at most 256 rows in `b`)
      every intermediate value of every accumulation fits in an i64, so
      modelling the element type by `int` loses nothing. */
  lemma FoldFitsI64(row: seq<int>, b: Matrix, j: nat, k: nat)
    requires RowConformable(row, b) && j < |b[0]| && k <= |b| <= 256
    requires forall t :: 0 <= t < |b| ==> IsI16(row[t]) && IsI16(b[t][j])
    ensures IsI64(Fold(row, b, j, k))
  {
    FoldBounded(row, b, j, k);
  }
}

/** The row-decomposed multiplier. Each row index is tagged with the row of
    the product it yields; the tagged rows are collected, sorted by their tag
    in place, and the rows are read off in sorted order. The worker pool is
    modelled as a sequential map whose results are collected in the order
    `order`, any rearrangement of the row indices. The collection of an indexed
    parallel iterator in fact keeps index order (`order` = Range(|a|), see
    IndexOrderCollect), in which case the sort moves nothing; the model does
    not rely on that. */
module MultiThreaded {
  import opened Matrix
  import opened Permutations

  /** One output row: for every column j of `b`, the fold from 0 of
      row[t] * b[t][j] over t = 0, 1, ..., |b| - 1. It agrees with the
      corresponding row of the textbook product. */
  function InnerProds(row: seq<int>, b: Matrix): (r: seq<int>)
    requires RowConformable(row, b)
    ensures |r| == |b[0]|
    ensures forall j :: 0 <= j < |b[0]| ==> r[j] == Sum(row, b, j, 0)
    ensures r == ReferenceRow(row, b)
  {
    var r := seq(|b[0]|, j requires 0 <= j < |b[0]| => Fold(row, b, j, |b|));
    assert forall j :: 0 <= j < |b[0]| ==> r[j] == Sum(row, b, j, 0) by {
      forall j | 0 <= j < |b[0]| {
        FoldThenSum(row, b, j, |b|);
      }
    }
    r
  }

  /** A row of the product tagged with its row index. */
  type TaggedRow = (nat, seq<int>)

  /** The tagged rows in collection order: slot p holds the work item for row
      order[p]. */
  function Collect(a: Matrix, b: Matrix, order: seq<nat>): seq<TaggedRow>
    requires RowsConformable(a, b)
    requires IsPermutation(order, |a|)
  {
    PermutationFacts(order, |a|);
    seq(|order|, p requires 0 <= p < |order| => (order[p], InnerProds(a[order[p]], b)))
  }

  /** The tagged rows in row order: slot i holds the work item for row i. */
  function Tagged(a: Matrix, b: Matrix): seq<TaggedRow>
    requires RowsConformable(a, b)
  {
    seq(|a|, i requires 0 <= i < |a| => (i, InnerProds(a[i], b)))
  }

  /** Every pair carries a row index of `a` and the output row for that index. */
  ghost predicate WellTagged(s: seq<TaggedRow>, a: Matrix, b: Matrix)
    requires RowsConformable(a, b)
  {
    forall p :: 0 <= p < |s| ==> s[p].0 < |a| && s[p].1 == InnerProds(a[s[p].0], b)
  }

  /** The keys never decrease from left to right. */
  ghost predicate SortedByKey(s: seq<TaggedRow>)
  {
    forall p, q :: 0 <= p < q < |s| ==> s[p].0 <= s[q].0
  }

  /** The parallel phase yields exactly one pair (i, InnerProds(a[i], b)) for
      every row index i of `a`: no index missing, none repeated, no other pair. */
  lemma CollectTagsEachRowOnce(a: Matrix, b: Matrix, order: seq<nat>)
    requires RowsConformable(a, b)
    requires IsPermutation(order, |a|)
    ensures forall p :: 0 <= p < |order| ==> order[p] < |a|
    ensures |Collect(a, b, order)| == |a|
    ensures WellTagged(Collect(a, b, order), a, b)
    ensures forall p, q :: 0 <= p < q < |a| ==> Collect(a, b, order)[p].0 != Collect(a, b, order)[q].0
    ensures forall i :: 0 <= i < |a| ==> (i, InnerProds(a[i], b)) in Collect(a, b, order)
  {
    PermutationFacts(order, |a|);
    var c := Collect(a, b, order);
    forall i | 0 <= i < |a|
      ensures (i, InnerProds(a[i], b)) in c
    {
      assert i in order;
      var p :| 0 <= p < |order| && order[p] == i;
      assert c[p] == (i, InnerProds(a[i], b));
    }
  }

  /** Collected in index order, the tagged rows are already in row order,
      and already sorted by key. */
  lemma IndexOrderCollect(a: Matrix, b: Matrix)
    requires RowsConformable(a, b)
    ensures IsPermutation(Range(|a|), |a|)
    ensures Collect(a, b, Range(|a|)) == Tagged(a, b)
    ensures SortedByKey(Collect(a, b, Range(|a|)))
  {
  }

  /** Keys that strictly increase and stay below the length are the indices. */
  lemma {:induction false} StrictKeysAtLeastIndex(s: seq<TaggedRow>, p: nat)
    requires p < |s|
    requires forall x, y :: 0 <= x < y < |s| ==> s[x].0 < s[y].0
    ensures s[p].0 >= p
  {
    if p > 0 {
      StrictKeysAtLeastIndex(s, p - 1);
    }
  }

  lemma {:induction false} StrictKeysAtMostIndex(s: seq<TaggedRow>, p: nat)
    requires p < |s|
    requires forall x :: 0 <= x < |s| ==> s[x].0 < |s|
    requires forall x, y :: 0 <= x < y < |s| ==> s[x].0 < s[y].0
    ensures s[p].0 <= p
    decreases |s| - p
  {
    if p + 1 < |s| {
      StrictKeysAtMostIndex(s, p + 1);
    }
  }

  /** Sorting the collected pairs by key restores row order: any rearrangement
      of the collected pairs whose keys do not decrease is exactly the list of
      pairs (i, InnerProds(a[i], b)) for i = 0, 1, ..., |a| - 1, whatever the
      collection order was. */
  lemma SortedCollectIsTagged(a: Matrix, b: Matrix, order: seq<nat>, s: seq<TaggedRow>)
    requires RowsConformable(a, b)
    requires IsPermutation(order, |a|)
    requires multiset(s) == multiset(Collect(a, b, order))
    requires SortedByKey(s)
    ensures s == Tagged(a, b)
  {
    CollectTagsEachRowOnce(a, b, order);
    var c := Collect(a, b, order);
    assert |s| == |a| by {
      assert |s| == |multiset(s)| == |multiset(c)| == |c|;
    }
    // Every sorted pair is one of the collected pairs.
    forall p | 0 <= p < |s|
      ensures s[p].0 < |a| && s[p].1 == InnerProds(a[s[p].0], b)
    {
      assert s[p] in multiset(c);
    }
    // Collected pairs have distinct keys, so they are distinct pairs, and so are the sorted ones.
    assert Distinct(c);
    RearrangedDistinct(s, c);
    forall x, y | 0 <= x < y < |s|
      ensures s[x].0 < s[y].0
    {
      assert s[x] != s[y];
    }
    forall p | 0 <= p < |s|
      ensures s[p] == Tagged(a, b)[p]
    {
      StrictKeysAtLeastIndex(s, p);
      StrictKeysAtMostIndex(s, p);
    }
  }

  /** The result of the sort does not depend on the order the rows were
      collected in: two collection orders sort to the same sequence. */
  lemma SortIsOrderIndependent(a: Matrix, b: Matrix, order1: seq<nat>, order2: seq<nat>,
                               s1: seq<TaggedRow>, s2: seq<TaggedRow>)
    requires RowsConformable(a, b)
    requires IsPermutation(order1, |a|) && IsPermutation(order2, |a|)
    requires multiset(s1) == multiset(Collect(a, b, order1)) && SortedByKey(s1)
    requires multiset(s2) == multiset(Collect(a, b, order2)) && SortedByKey(s2)
    ensures s1 == s2
  {
    SortedCollectIsTagged(a, b, order1, s1);
    SortedCollectIsTagged(a, b, order2, s2);
  }

  /** Exchanges two entries of `rows`. */
  method Swap(rows: array<TaggedRow>, x: nat, y: nat)
    requires x < y < rows.Length
    modifies rows
    ensures rows[x] == old(rows[y]) && rows[y] == old(rows[x])
    ensures forall p :: 0 <= p < rows.Length && p != x && p != y ==> rows[p] == old(rows[p])
    ensures multiset(rows[..]) == multiset(old(rows[..]))
  {
    rows[x], rows[y] := rows[y], rows[x];
  }

  /** Sorts the tagged rows in place by ascending key, by insertion. */
  method SortByKey(rows: array<TaggedRow>)
    modifies rows
    ensures SortedByKey(rows[..])
    ensures multiset(rows[..]) == multiset(old(rows[..]))
  {
    for i := 0 to rows.Length
      invariant forall p, q :: 0 <= p < q < i ==> rows[p].0 <= rows[q].0
      invariant multiset(rows[..]) == multiset(old(rows[..]))
    {
      var j := i;
      while j > 0 && rows[j - 1].0 > rows[j].0
        invariant 0 <= j <= i
        invariant forall p, q :: 0 <= p < q <= i && p != j && q != j ==> rows[p].0 <= rows[q].0
        invariant forall q :: j < q <= i ==> rows[j].0 < rows[q].0
        invariant multiset(rows[..]) == multiset(old(rows[..]))
      {
        Swap(rows, j - 1, j);
        j := j - 1;
      }
    }
  }

  /** The rows of the tagged pairs, in the pairs' order. */
  function Project(s: seq<TaggedRow>): seq<seq<int>>
  {
    seq(|s|, p requires 0 <= p < |s| => s[p].1)
  }

  /** Computes every row independently, collects the tagged rows in the
      order `order`, sorts them by tag and projects the rows out. Row i of the
      result is InnerProds(a[i], b) whatever `order` was, so the result is the
      product. With `a` empty nothing is computed and `b` is not inspected. */
  method MultiplyMultiThreaded(a: Matrix, b: Matrix, order: seq<nat>) returns (result: Matrix)
    requires RowsConformable(a, b)
    requires IsPermutation(order, |a|)
    ensures |result| == |a|
    ensures forall i :: 0 <= i < |a| ==> result[i] == InnerProds(a[i], b)
    ensures result == Product(a, b)
  {
    PermutationFacts(order, |a|);
    var unordered := Collect(a, b, order);
    var rows := new TaggedRow[|unordered|](p requires 0 <= p < |unordered| => unordered[p]);
    assert rows[..] == unordered;
    SortByKey(rows);
    SortedCollectIsTagged(a, b, order, rows[..]);
    result := Project(rows[..]);
  }
}

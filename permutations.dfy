/** Rearrangements of a sequence, stated through multisets: all that the model
    assumes about the order in which the parallel phase collects its results. */
module Permutations {

  /** The indices 0, 1, ..., n - 1 in increasing order. */
  function Range(n: nat): seq<nat>
  {
    seq(n, i => i)
  }

  /** `order` lists each of 0, 1, ..., n - 1 exactly once, in any order. */
  predicate IsPermutation(order: seq<nat>, n: nat)
  {
    multiset(order) == multiset(Range(n))
  }

  /** No element occurs twice. */
  ghost predicate Distinct<T>(s: seq<T>)
  {
    forall p, q :: 0 <= p < q < |s| ==> s[p] != s[q]
  }

  /** In a sequence without repetitions every element occurs at most once. */
  lemma {:induction false} DistinctOccursOnce<T>(s: seq<T>, x: T)
    requires Distinct(s)
    ensures multiset(s)[x] <= 1
  {
    if |s| > 0 {
      var init := s[..|s| - 1];
      assert s == init + [s[|s| - 1]];
      assert Distinct(init);
      DistinctOccursOnce(init, x);
      if x == s[|s| - 1] {
        assert x !in init;
      }
    }
  }

  /** An element found at two positions occurs at least twice. */
  lemma RepeatedOccursTwice<T>(s: seq<T>, p: nat, q: nat)
    requires p < q < |s| && s[p] == s[q]
    ensures multiset(s)[s[p]] >= 2
  {
    assert s == s[..q] + s[q..];
    assert s[p] in s[..q];
    assert s[q..][0] == s[q];
  }

  /** A rearrangement of a sequence without repetitions has none either. */
  lemma RearrangedDistinct<T>(s: seq<T>, t: seq<T>)
    requires multiset(s) == multiset(t) && Distinct(t)
    ensures Distinct(s)
  {
    forall p, q | 0 <= p < q < |s|
      ensures s[p] != s[q]
    {
      if s[p] == s[q] {
        RepeatedOccursTwice(s, p, q);
        DistinctOccursOnce(t, s[p]);
      }
    }
  }

  /** A permutation of 0..n-1 has length n, stays below n, has no repetitions
      and contains every index. */
  lemma PermutationFacts(order: seq<nat>, n: nat)
    requires IsPermutation(order, n)
    ensures |order| == n
    ensures forall p :: 0 <= p < |order| ==> order[p] < n
    ensures Distinct(order)
    ensures forall i :: 0 <= i < n ==> i in order
  {
    assert |order| == |multiset(order)| == |multiset(Range(n))| == n;
    forall p | 0 <= p < |order|
      ensures order[p] < n
    {
      assert order[p] in multiset(Range(n));
    }
    forall i | 0 <= i < n
      ensures i in order
    {
      assert Range(n)[i] == i;
      assert i in multiset(order);
    }
    assert Distinct(Range(n));
    RearrangedDistinct(order, Range(n));
  }
}

/**
 The permutation helpers of permutation.go: the base (identity) permutation,
 copying and element-wise comparison, together with what it means for an
 integer sequence to be a permutation of {0, ..., n-1}.

 Go slices become Dafny sequences. Sequences are values, so a copy can never
 alias the original and no operation here can change its argument.
 */
module Permutations {

  /** p is a bijection on {0, ..., |p|-1}: every entry is in range and no two entries coincide. */
  predicate IsPerm(p: seq<int>) {
    && (forall i :: 0 <= i < |p| ==> 0 <= p[i] < |p|)
    && (forall i, j :: 0 <= i < j < |p| ==> p[i] != p[j])
  }

  /** basePerm: the identity permutation 0, 1, ..., n-1. */
  function BasePerm(n: nat): (p: seq<int>)
    ensures |p| == n
    ensures forall i :: 0 <= i < n ==> p[i] == i
    ensures IsPerm(p)
  {
    seq(n, i => i)
  }

  /** copyPerm: a freshly built sequence holding the same entries as x. */
  function CopyPerm(x: seq<int>): (y: seq<int>)
    ensures |y| == |x|
    ensures forall i :: 0 <= i < |x| ==> y[i] == x[i]
    ensures IsPerm(x) ==> IsPerm(y)
  {
    seq(|x|, i requires 0 <= i < |x| => x[i])
  }

  /**
   comparePerms: false as soon as the lengths differ or some index holds
   different values, true otherwise; that is exactly sequence equality.
   */
  method ComparePerms(x: seq<int>, y: seq<int>) returns (same: bool)
    ensures same <==> |x| == |y| && forall i :: 0 <= i < |x| ==> x[i] == y[i]
    ensures same <==> x == y
  {
    if |x| != |y| {
      return false;
    }
    var i := 0;
    while i < |x|
      invariant 0 <= i <= |x|
      invariant forall m :: 0 <= m < i ==> x[m] == y[m]
    {
      if x[i] != y[i] {
        return false;
      }
      i := i + 1;
    }
    return true;
  }

  /** A copy compares equal to its original, and every sequence compares equal to itself. */
  method CopyComparesEqual(x: seq<int>) returns (same: bool, selfSame: bool)
    ensures same && selfSame
  {
    var y := CopyPerm(x);
    same := ComparePerms(x, y);
    selfSame := ComparePerms(x, x);
  }

  /** A sequence without repeated entries holds each value at most once. */
  lemma {:induction false} DistinctCountsAtMostOne(p: seq<int>)
    requires forall i, j :: 0 <= i < j < |p| ==> p[i] != p[j]
    ensures forall v :: multiset(p)[v] <= 1
  {
    if |p| > 0 {
      var init := p[..|p| - 1];
      DistinctCountsAtMostOne(init);
      assert p == init + [p[|p| - 1]];
      assert p[|p| - 1] !in init;
      forall v
        ensures multiset(p)[v] <= 1
      {
        assert multiset(p)[v] == multiset(init)[v] + multiset([p[|p| - 1]])[v];
      }
    }
  }

  /** Two positions holding the same value make that value occur at least twice. */
  lemma TwoPositions(p: seq<int>, i: int, j: int)
    requires 0 <= i < j < |p| && p[i] == p[j]
    ensures multiset(p)[p[i]] >= 2
  {
    assert p == p[..i] + [p[i]] + p[i + 1..j] + [p[j]] + p[j + 1..];
    assert multiset(p) == multiset(p[..i]) + multiset{p[i]} + multiset(p[i + 1..j]) + multiset{p[j]} + multiset(p[j + 1..]);
  }

  /** The identity permutation holds each value of {0, ..., n-1} exactly once and nothing else. */
  lemma {:induction false} BaseCounts(n: nat)
    ensures forall v :: multiset(BasePerm(n))[v] == if 0 <= v < n then 1 else 0
  {
    if n > 0 {
      BaseCounts(n - 1);
      assert BasePerm(n) == BasePerm(n - 1) + [n - 1];
      assert multiset(BasePerm(n)) == multiset(BasePerm(n - 1)) + multiset{n - 1};
    }
  }

  /** A sub-multiset with the same size is the whole multiset. */
  lemma SubMultisetSameSize(a: multiset<int>, b: multiset<int>)
    requires a <= b && |a| == |b|
    ensures a == b
  {
    assert b == a + (b - a);
    assert |b - a| == 0;
  }

  /**
   A sequence is a permutation of {0, ..., n-1} exactly when it holds the same
   multiset of values as the identity permutation of that length.
   */
  lemma IsPermIffBaseMultiset(p: seq<int>)
    ensures IsPerm(p) <==> multiset(p) == multiset(BasePerm(|p|))
  {
    var b := multiset(BasePerm(|p|));
    BaseCounts(|p|);
    if IsPerm(p) {
      DistinctCountsAtMostOne(p);
      forall v
        ensures multiset(p)[v] <= b[v]
      {
        if !(0 <= v < |p|) {
          assert v !in p;
        }
      }
      assert multiset(p) <= b;
      SubMultisetSameSize(multiset(p), b);
    }
    if multiset(p) == b {
      forall i | 0 <= i < |p|
        ensures 0 <= p[i] < |p|
      {
        assert p[i] in multiset(p);
      }
      forall i, j | 0 <= i < j < |p|
        ensures p[i] != p[j]
      {
        if p[i] == p[j] {
          TwoPositions(p, i, j);
        }
      }
    }
  }

  /** Rearranging a permutation (keeping its multiset of values) yields a permutation. */
  lemma RearrangedPerm(p: seq<int>, q: seq<int>)
    requires IsPerm(p) && multiset(q) == multiset(p)
    ensures IsPerm(q)
  {
    assert |q| == |multiset(q)| == |p|;
    IsPermIffBaseMultiset(p);
    IsPermIffBaseMultiset(q);
  }

  /** Two permutations of the same length hold the same multiset of values. */
  lemma PermsSameMultiset(p: seq<int>, r: seq<int>)
    requires IsPerm(p) && IsPerm(r) && |p| == |r|
    ensures multiset(r) == multiset(p)
  {
    IsPermIffBaseMultiset(p);
    IsPermIffBaseMultiset(r);
  }
}

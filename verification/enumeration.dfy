/**
 The exhaustive solver of main.go (`naiveSoln`): start at the base
 permutation, apply `nextPerm` until the base permutation comes back, and keep
 the cheapest permutation seen.

 The walk is followed through the rank of the Ranking module: after t steps
 it stands on the permutation of rank t, so it visits every permutation of
 {0, ..., n-1} exactly once, in increasing lexicographic order, and returns
 to the base after exactly n! steps.

 The tour length is abstracted to an arbitrary integer cost of a permutation.
 `naiveSoln` calls `basePermutation`, `copyPermutation`, `nextPermutation` and
 `isBase`; these are taken to be `basePerm`, `copyPerm`, `nextPerm` and a
 comparison with `basePerm(n)`.
 */
module Enumeration {
  import opened Factorials
  import opened Permutations
  import opened LexOrder
  import opened Successors
  import opened Ranking

  /**
   The step at the end of each round of naiveSoln's loop: move to the next
   permutation and test whether it is the base permutation again. That
   happens exactly when the permutation left behind had the top rank n! - 1.
   */
  method Advance(perm: seq<int>, ghost t: nat) returns (next: seq<int>, isBase: bool)
    requires IsPerm(perm) && Rank(perm) == t
    ensures |next| == |perm|
    ensures isBase <==> next == BasePerm(|perm|)
    ensures isBase <==> t + 1 == Fact(|perm|)
    ensures !isBase ==> IsPerm(next) && Rank(next) == t + 1
  {
    WalkStep(perm);
    next := NextPerm(perm);
    isBase := ComparePerms(next, BasePerm(|perm|));
  }

  /**
   The loop of naiveSoln without the cost: from the base permutation, apply
   nextPerm until the base permutation comes back. It goes round exactly n!
   times; `visited` records the permutation each round works on. The rounds
   see every permutation of {0, ..., n-1}, none twice, round t the one of
   rank t.
   */
  method CountPerms(n: nat) returns (count: nat, ghost visited: seq<seq<int>>)
    ensures count == Fact(n)
    ensures |visited| == count
    ensures visited[0] == BasePerm(n)
    ensures forall t :: 0 <= t < |visited| ==>
              IsPerm(visited[t]) && |visited[t]| == n && Rank(visited[t]) == t
    ensures forall s, t :: 0 <= s < t < |visited| ==> visited[s] != visited[t]
    ensures forall r :: IsPerm(r) && |r| == n ==> r in visited
  {
    var perm := BasePerm(n);
    count := 0;
    visited := [];
    BaseRank(n);
    while true
      invariant IsPerm(perm) && |perm| == n && Rank(perm) == count
      invariant |visited| == count
      invariant count == 0 ==> perm == BasePerm(n)
      invariant 0 < count ==> visited[0] == BasePerm(n)
      invariant InRankOrder(n, visited)
      decreases Fact(n) - count
    {
      RankOrderExtended(n, visited, perm);
      visited := visited + [perm];
      var isBase;
      perm, isBase := Advance(perm, count);
      count := count + 1;
      if isBase {
        break;
      }
    }
    AllRanksVisited(n, visited);
  }

  /** Entry t of `visited` is a permutation of length n with rank t. */
  ghost predicate InRankOrder(n: nat, visited: seq<seq<int>>) {
    forall t :: 0 <= t < |visited| ==>
      IsPerm(visited[t]) && |visited[t]| == n && Rank(visited[t]) == t
  }

  /** Appending the permutation of the next rank keeps the record in rank order. */
  lemma RankOrderExtended(n: nat, visited: seq<seq<int>>, p: seq<int>)
    requires InRankOrder(n, visited)
    requires IsPerm(p) && |p| == n && Rank(p) == |visited|
    ensures InRankOrder(n, visited + [p])
  {
  }

  /**
   A record of the permutations of ranks 0, 1, ..., n! - 1 holds every
   permutation of length n, each once.
   */
  lemma AllRanksVisited(n: nat, visited: seq<seq<int>>)
    requires InRankOrder(n, visited) && |visited| == Fact(n)
    ensures forall s, t :: 0 <= s < t < |visited| ==> visited[s] != visited[t]
    ensures forall r :: IsPerm(r) && |r| == n ==> r in visited
  {
    forall s, t | 0 <= s < t < |visited|
      ensures visited[s] != visited[t]
    {
      assert Rank(visited[s]) == s && Rank(visited[t]) == t;
    }
    forall r | IsPerm(r) && |r| == n
      ensures r in visited
    {
      var v := visited[Rank(r)];
      PermsSameMultiset(r, v);
      PermEntries(r);
      RankInjective(r, v);
    }
  }

  /** The running minimum before the first tour is measured: math.MaxFloat64 acts as "no tour yet". */
  datatype Dist = Infinite | Finite(value: int)

  /** dist < minDist, with every finite cost below the initial sentinel. */
  predicate Below(d: int, m: Dist) {
    m.Infinite? || d < m.value
  }

  /** What naiveSoln ends with: the best cost and permutation, or the fatal error for more than 15 points. */
  datatype Outcome = TooManyPoints | Solved(minDist: int, minPerm: seq<int>)

  /**
   naiveSoln for n points: refuses more than 15 points; otherwise walks the
   whole cycle of nextPerm from the base permutation and returns the first
   permutation (in lexicographic order) of least cost, with that cost.
   */
  method NaiveSoln(n: nat, cost: seq<int> -> int) returns (out: Outcome)
    ensures out.TooManyPoints? <==> MaxEnumerated < n
    ensures out.Solved? ==> IsPerm(out.minPerm) && |out.minPerm| == n
    ensures out.Solved? ==> cost(out.minPerm) == out.minDist
    ensures out.Solved? ==> forall r :: IsPerm(r) && |r| == n ==> out.minDist <= cost(r)
    ensures out.Solved? ==> forall r :: IsPerm(r) && |r| == n && LexLess(r, out.minPerm) ==> out.minDist < cost(r)
  {
    if MaxEnumerated < n {
      return TooManyPoints;
    }
    var perm := BasePerm(n);
    var minPerm := CopyPerm(perm);
    var minDist := Infinite;
    ghost var t := 0;
    ghost var minAt := 0;
    BaseRank(n);
    while true
      invariant IsPerm(perm) && |perm| == n && Rank(perm) == t
      invariant t == 0 ==> minDist == Infinite
      invariant 0 < t ==> && IsPerm(minPerm) && |minPerm| == n && Rank(minPerm) == minAt < t
                          && minDist == Finite(cost(minPerm))
                          && AtMostAllBelow(n, t, minDist.value, cost)
                          && LessThanAllBelow(n, minAt, minDist.value, cost)
      decreases Fact(n) - t
    {
      var dist := cost(perm);
      if Below(dist, minDist) {
        if 0 < t {
          AtMostLowered(n, t, minDist.value, dist, cost);
        }
        minDist := Finite(dist);
        minPerm := CopyPerm(perm);
        assert minPerm == perm;
        NothingBelowCheaper(n, t, dist, cost);
        minAt := t;
      }
      AtMostExtended(perm, minDist.value, cost);
      var isBase;
      perm, isBase := Advance(perm, t);
      t := t + 1;
      if isBase {
        break;
      }
    }
    forall r | IsPerm(r) && |r| == n && LexLess(r, minPerm)
      ensures Rank(r) < minAt
    {
      PermsSameMultiset(minPerm, r);
      PermEntries(r);
      RankMonotone(r, minPerm);
    }
    return Solved(minDist.value, minPerm);
  }

  /** Every permutation of length n and rank below t costs at least m. */
  ghost predicate AtMostAllBelow(n: nat, t: int, m: int, cost: seq<int> -> int) {
    forall r :: IsPerm(r) && |r| == n && Rank(r) < t ==> m <= cost(r)
  }

  /** Every permutation of length n and rank below t costs more than m. */
  ghost predicate LessThanAllBelow(n: nat, t: int, m: int, cost: seq<int> -> int) {
    forall r :: IsPerm(r) && |r| == n && Rank(r) < t ==> m < cost(r)
  }

  /** A new, smaller minimum is still a lower bound. */
  lemma AtMostLowered(n: nat, t: int, m: int, m': int, cost: seq<int> -> int)
    requires AtMostAllBelow(n, t, m, cost) && m' < m
    ensures LessThanAllBelow(n, t, m', cost)
  {
  }

  /** When nothing has been seen yet, every bound holds vacuously. */
  lemma NothingBelowCheaper(n: nat, t: int, m: int, cost: seq<int> -> int)
    requires t == 0 || LessThanAllBelow(n, t, m, cost)
    ensures LessThanAllBelow(n, t, m, cost) && AtMostAllBelow(n, t, m, cost)
  {
  }

  /**
   A bound that holds below p's rank and for p itself holds below the next
   rank: p is the only permutation of its length with its rank.
   */
  lemma AtMostExtended(p: seq<int>, m: int, cost: seq<int> -> int)
    requires IsPerm(p) && m <= cost(p)
    requires AtMostAllBelow(|p|, Rank(p), m, cost)
    ensures AtMostAllBelow(|p|, Rank(p) + 1, m, cost)
  {
    forall r | IsPerm(r) && |r| == |p| && Rank(r) == Rank(p)
      ensures r == p
    {
      PermsSameMultiset(r, p);
      PermEntries(r);
      RankInjective(r, p);
    }
  }
}

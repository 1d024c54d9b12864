/**
 The lexicographic rank of a permutation (its Lehmer code read as a
 factorial-base number). It is the measure behind the comment in main.go
 that the exhaustive solver tries all n! permutations: the rank of the base
 permutation is 0, every step of `nextPerm` adds exactly one, no rank
 reaches n!, the last permutation has rank n! - 1, and among permutations of
 one length the rank is injective and follows lexicographic order.
 */
module Ranking {
  import opened Factorials
  import opened Permutations
  import opened LexOrder
  import opened Successors

  /** How many values of m, counted with multiplicity, lie in [0, x). */
  function CountBelow(m: multiset<int>, x: int): nat
    decreases x
  {
    if x <= 0 then 0 else CountBelow(m, x - 1) + m[x - 1]
  }

  /**
   Lehmer-code rank: the head contributes the number of later entries in
   [0, head) times (|s|-1)!, and the tail contributes its own rank. On
   permutations this is the 0-based position in lexicographic order.
   */
  function Rank(s: seq<int>): (r: nat)
    ensures r < Fact(|s|)
  {
    if |s| == 0 then 0
    else
      var d := CountBelow(multiset(s[1..]), s[0]);
      CountBelowSize(s[1..], s[0]);
      RankStep(d, |s| - 1, Rank(s[1..]));
      d * Fact(|s| - 1) + Rank(s[1..])
  }

  /** A digit at most m in a factorial-base place of weight m! keeps the total below (m+1)!. */
  lemma RankStep(d: nat, m: nat, rest: nat)
    requires d <= m && rest < Fact(m)
    ensures d * Fact(m) + rest < Fact(m + 1)
  {
    var F := Fact(m);
    FactSucc(m);
    MulMonotone(d, m, F);
    Distribute(m, F);
  }

  lemma MulMonotone(a: int, b: int, c: int)
    requires a <= b && 0 <= c
    ensures a * c <= b * c
  {
    assert b * c - a * c == (b - a) * c;
  }

  lemma Distribute(a: int, c: int)
    ensures (a + 1) * c == a * c + c
  {
  }

  lemma CountBelowEmpty(x: int)
    ensures CountBelow(multiset{}, x) == 0
    decreases x
  {
    if x > 0 {
      CountBelowEmpty(x - 1);
    }
  }

  lemma {:induction false} CountBelowUnion(a: multiset<int>, b: multiset<int>, x: int)
    ensures CountBelow(a + b, x) == CountBelow(a, x) + CountBelow(b, x)
    decreases x
  {
    if x > 0 {
      CountBelowUnion(a, b, x - 1);
    }
  }

  lemma {:induction false} CountBelowSingle(y: int, x: int)
    ensures CountBelow(multiset{y}, x) == if 0 <= y < x then 1 else 0
    decreases x
  {
    if x > 0 {
      CountBelowSingle(y, x - 1);
    }
  }

  /** Splitting off the first entry. */
  lemma CountBelowCons(s: seq<int>, x: int)
    requires 0 < |s|
    ensures CountBelow(multiset(s), x) == CountBelow(multiset(s[1..]), x) + (if 0 <= s[0] < x then 1 else 0)
  {
    assert s == [s[0]] + s[1..];
    assert multiset(s) == multiset{s[0]} + multiset(s[1..]);
    CountBelowUnion(multiset{s[0]}, multiset(s[1..]), x);
    CountBelowSingle(s[0], x);
  }

  lemma {:induction false} CountBelowSize(s: seq<int>, x: int)
    ensures CountBelow(multiset(s), x) <= |s|
    decreases |s|
  {
    if 0 < |s| {
      CountBelowCons(s, x);
      CountBelowSize(s[1..], x);
    } else {
      CountBelowEmpty(x);
    }
  }

  /** When every entry lies in [0, x), all of them are counted. */
  lemma {:induction false} CountBelowAll(s: seq<int>, x: int)
    requires forall i :: 0 <= i < |s| ==> 0 <= s[i] < x
    ensures CountBelow(multiset(s), x) == |s|
    decreases |s|
  {
    if 0 < |s| {
      CountBelowCons(s, x);
      CountBelowAll(s[1..], x);
    } else {
      CountBelowEmpty(x);
    }
  }

  /** When no entry lies below x, none is counted. */
  lemma {:induction false} CountBelowNone(s: seq<int>, x: int)
    requires forall i :: 0 <= i < |s| ==> x <= s[i]
    ensures CountBelow(multiset(s), x) == 0
    decreases |s|
  {
    if 0 < |s| {
      CountBelowCons(s, x);
      CountBelowNone(s[1..], x);
    } else {
      CountBelowEmpty(x);
    }
  }

  /** Raising the bound across values m does not hold leaves the count unchanged. */
  lemma {:induction false} CountBelowGap(m: multiset<int>, a: int, b: int)
    requires 0 <= a <= b
    requires forall v :: a <= v < b ==> m[v] == 0
    ensures CountBelow(m, b) == CountBelow(m, a)
    decreases b - a
  {
    if a < b {
      CountBelowGap(m, a, b - 1);
    }
  }

  /** A non-decreasing sequence is rank 0: the first arrangement of its values. */
  lemma {:induction false} AscendingRank(s: seq<int>)
    requires Ascending(s)
    ensures Rank(s) == 0
    decreases |s|
  {
    if 0 < |s| {
      CountBelowNone(s[1..], s[0]);
      AscendingRank(s[1..]);
    }
  }

  /** A strictly decreasing sequence of non-negative values has the largest rank, |s|! - 1. */
  lemma {:induction false} StrictlyDescendingRank(s: seq<int>)
    requires forall i, j :: 0 <= i < j < |s| ==> s[i] > s[j]
    requires forall i :: 0 <= i < |s| ==> 0 <= s[i]
    ensures Rank(s) == Fact(|s|) - 1
    decreases |s|
  {
    if 0 < |s| {
      var m := |s| - 1;
      CountBelowAll(s[1..], s[0]);
      StrictlyDescendingRank(s[1..]);
      assert Rank(s) == m * Fact(m) + Fact(m) - 1;
      FactSucc(m);
      Distribute(m, Fact(m));
    }
  }

  /** A shared prefix shifts the ranks of two rearrangements by the same amount. */
  lemma {:induction false} RankSharedPrefix(c: seq<int>, s: seq<int>, t: seq<int>)
    requires multiset(s) == multiset(t)
    ensures Rank(c + s) - Rank(c + t) == Rank(s) - Rank(t)
    decreases |c|
  {
    if |c| == 0 {
      assert c + s == s && c + t == t;
    } else {
      assert c + s == [c[0]] + (c[1..] + s);
      assert c + t == [c[0]] + (c[1..] + t);
      assert multiset(c[1..] + s) == multiset(c[1..] + t);
      SameHeadRanks(c[0], c[1..] + s, c[1..] + t);
      RankSharedPrefix(c[1..], s, t);
    }
  }

  /** Rearrangements behind one head keep the distance of their ranks. */
  lemma SameHeadRanks(x: int, u: seq<int>, v: seq<int>)
    requires multiset(u) == multiset(v)
    ensures Rank([x] + u) - Rank([x] + v) == Rank(u) - Rank(v)
  {
    assert |u| == |multiset(u)| == |v|;
    RankCons(x, u);
    RankCons(x, v);
  }

  /** The base permutation has rank 0. */
  lemma BaseRank(n: nat)
    ensures Rank(BasePerm(n)) == 0
  {
    AscendingRank(BasePerm(n));
  }

  /** The entries of a permutation are non-negative and pairwise distinct. */
  lemma PermEntries(p: seq<int>)
    requires IsPerm(p)
    ensures forall i :: 0 <= i < |p| ==> 0 <= p[i]
    ensures forall i, j :: 0 <= i < |p| && 0 <= j < |p| && i != j ==> p[i] != p[j]
  {
  }

  /**
   Distinct non-negative values without an ascent have rank n! - 1; for a
   permutation that is the last one, n-1 ... 1 0.
   */
  lemma LastRank(p: seq<int>)
    requires forall i :: 0 <= i < |p| ==> 0 <= p[i]
    requires forall i, j :: 0 <= i < j < |p| ==> p[i] != p[j]
    requires !HasAscent(p)
    ensures Rank(p) == Fact(|p|) - 1
  {
    TailDescendingAll(p);
    StrictlyDescendingRank(p);
  }

  /**
   Trading b for a smaller a that is not among P's values, where b is the
   smallest value of P above a, raises the count below b by exactly one over
   the count below a.
   */
  lemma PivotDigit(a: int, P: seq<int>, b: int, Q: seq<int>)
    requires 0 <= a < b
    requires b in multiset(P) && a !in multiset(P)
    requires forall x :: x in P && a < x ==> b <= x
    requires multiset(Q) == multiset(P) - multiset{b} + multiset{a}
    ensures CountBelow(multiset(Q), b) == CountBelow(multiset(P), a) + 1
  {
    var mP := multiset(P);
    var rest := mP - multiset{b};
    assert mP == rest + multiset{b};
    CountBelowUnion(rest, multiset{b}, b);
    CountBelowSingle(b, b);
    CountBelowUnion(rest, multiset{a}, b);
    CountBelowSingle(a, b);
    forall v | a <= v < b
      ensures mP[v] == 0
    {
      assert v in P ==> v == a || b <= v;
    }
    CountBelowGap(mP, a, b);
  }

  /**
   From the last arrangement [a] + P (P strictly decreasing) to the first
   arrangement [b] + Q (Q non-decreasing) whose leading digit is one larger,
   the rank grows by exactly one.
   */
  lemma SuffixStepRank(a: int, P: seq<int>, b: int, Q: seq<int>)
    requires |P| == |Q|
    requires forall i, j :: 0 <= i < j < |P| ==> P[i] > P[j]
    requires forall i :: 0 <= i < |P| ==> 0 <= P[i]
    requires Ascending(Q)
    requires CountBelow(multiset(Q), b) == CountBelow(multiset(P), a) + 1
    ensures Rank([b] + Q) == Rank([a] + P) + 1
  {
    var F := Fact(|P|);
    LastWithHead(a, P);
    FirstWithHead(b, Q);
    assert Fact(|Q|) == F;
    NextPlace(CountBelow(multiset(P), a), CountBelow(multiset(Q), b), F, Rank([a] + P), Rank([b] + Q));
  }

  /** Behind a fixed head, a strictly decreasing tail gives the largest rank. */
  lemma LastWithHead(a: int, P: seq<int>)
    requires forall i, j :: 0 <= i < j < |P| ==> P[i] > P[j]
    requires forall i :: 0 <= i < |P| ==> 0 <= P[i]
    ensures Rank([a] + P) == CountBelow(multiset(P), a) * Fact(|P|) + (Fact(|P|) - 1)
  {
    StrictlyDescendingRank(P);
    RankCons(a, P);
  }

  /** Behind a fixed head, a non-decreasing tail gives the smallest rank. */
  lemma FirstWithHead(b: int, Q: seq<int>)
    requires Ascending(Q)
    ensures Rank([b] + Q) == CountBelow(multiset(Q), b) * Fact(|Q|)
  {
    AscendingRank(Q);
    RankCons(b, Q);
  }

  /** The largest number with digit d in a place of weight F, plus one, is the smallest with digit d+1. */
  lemma NextPlace(d: int, e: int, F: int, x: int, y: int)
    requires e == d + 1
    requires x == d * F + (F - 1) && y == e * F
    ensures y == x + 1
  {
    Distribute(d, F);
  }

  /** Unfolding the rank of a sequence with a given head. */
  lemma RankCons(x: int, s: seq<int>)
    ensures Rank([x] + s) == CountBelow(multiset(s), x) * Fact(|s|) + Rank(s)
  {
    assert ([x] + s)[1..] == s;
  }

  /** The suffix after the pivot of a permutation with no ascent in it is strictly decreasing and non-negative. */
  lemma StrictSuffix(p: seq<int>, k: int)
    requires IsPerm(p) && 0 <= k < |p|
    requires Descending(p[k + 1..])
    ensures var P := p[k + 1..];
            && (forall i, j :: 0 <= i < j < |P| ==> P[i] > P[j])
            && (forall i :: 0 <= i < |P| ==> 0 <= P[i])
            && p[k] !in multiset(P)
  {
    var P := p[k + 1..];
    forall i, j | 0 <= i < j < |P|
      ensures P[i] > P[j]
    {
      assert P[i] == p[k + 1 + i] && P[j] == p[k + 1 + j];
    }
    forall i | 0 <= i < |P|
      ensures P[i] != p[k]
    {
      assert P[i] == p[k + 1 + i];
    }
  }

  /** Exchanging the head a for b, and b for a in the tail, keeps the values. */
  lemma TradeHeads(a: int, P: seq<int>, b: int, Q: seq<int>)
    requires b in multiset(P)
    requires multiset(Q) == multiset(P) - multiset{b} + multiset{a}
    ensures multiset([a] + P) == multiset([b] + Q)
  {
    assert multiset([a] + P) == multiset{a} + multiset(P);
    assert multiset([b] + Q) == multiset{b} + multiset(Q);
  }

  /**
   Every step of nextPerm on a permutation with an ascent raises the rank by
   exactly one: the digit at the pivot k grows by one, and the suffix after
   it drops from its largest rank ((n-k-1)! - 1) to its smallest (0).
   */
  lemma SuccessorRank(p: seq<int>)
    requires IsPerm(p) && HasAscent(p)
    ensures Rank(Successor(p)) == Rank(p) + 1
  {
    var k, j := SuccessorPieces(p);
    var a, b := p[k], p[j];
    var P := p[k + 1..];
    var Q := Reverse(P[j - k - 1 := a]);
    PivotStep(p, k, j);
    RearrangeSplit(p, k, j);
    PrefixStep(p[..k], [b] + Q, [a] + P);
  }

  /**
   At the pivot k and partner j nextPerm chooses, the part of the permutation
   from k on moves from the last arrangement with head p[k] to the first one
   with head p[j], one rank further.
   */
  lemma PivotStep(p: seq<int>, k: int, j: int)
    requires IsPerm(p)
    requires 0 <= k < j < |p| && p[k] < p[j]
    requires Descending(p[k + 1..])
    requires forall m :: j < m < |p| ==> p[m] <= p[k]
    ensures var a, b, P := p[k], p[j], p[k + 1..];
            var Q := Reverse(P[j - k - 1 := a]);
            && multiset([a] + P) == multiset([b] + Q)
            && Rank([b] + Q) == Rank([a] + P) + 1
  {
    RearrangeShape(p, k, j);
    var a, b := p[k], p[j];
    var P := p[k + 1..];
    var Q := Reverse(P[j - k - 1 := a]);
    StrictSuffix(p, k);
    assert b in multiset(P) by {
      assert P[j - k - 1] == b;
    }
    assert 0 <= a by {
      PermEntries(p);
    }
    PivotDigit(a, P, b, Q);
    SuffixStepRank(a, P, b, Q);
    TradeHeads(a, P, b, Q);
  }

  /** Ranks of rearrangements behind a shared prefix keep their distance. */
  lemma PrefixStep(c: seq<int>, s: seq<int>, t: seq<int>)
    requires multiset(s) == multiset(t) && Rank(s) == Rank(t) + 1
    ensures Rank(c + s) == Rank(c + t) + 1
  {
    RankSharedPrefix(c, s, t);
  }

  /** How many values of m lie in [0, x) never decreases as x grows. */
  lemma {:induction false} CountBelowGrows(m: multiset<int>, a: int, b: int)
    requires a <= b
    ensures CountBelow(m, a) <= CountBelow(m, b)
    decreases b - a
  {
    if a < b {
      CountBelowGrows(m, a, b - 1);
    }
  }

  /** The rank of a non-empty sequence by its head: the head's digit, read against all the values, then the tail's rank. */
  lemma RankByHead(s: seq<int>)
    requires 0 < |s|
    ensures Rank(s) == CountBelow(multiset(s), s[0]) * Fact(|s| - 1) + Rank(s[1..])
  {
    CountBelowCons(s, s[0]);
  }

  /** A value of m below y has a smaller digit than y. */
  lemma DigitGrows(m: multiset<int>, x: int, y: int)
    requires x in m && 0 <= x < y
    ensures CountBelow(m, x) < CountBelow(m, y)
  {
    CountBelowGrows(m, x + 1, y);
  }

  /** Rearrangements with the same head have rearranged tails. */
  lemma SameHeadTails(r: seq<int>, q: seq<int>)
    requires 0 < |r| && 0 < |q| && r[0] == q[0]
    requires multiset(r) == multiset(q)
    ensures multiset(r[1..]) == multiset(q[1..])
  {
    DropHead(r);
    DropHead(q);
  }

  /** A smaller digit in a place of weight F outweighs any lower places. */
  lemma DigitOrder(dr: int, dq: int, F: int, xr: int, xq: int)
    requires 0 <= dr < dq && 0 <= xr < F && 0 <= xq
    ensures dr * F + xr < dq * F + xq
  {
    MulMonotone(dr + 1, dq, F);
    Distribute(dr, F);
  }

  /**
   Among rearrangements of non-negative values, lexicographic order is rank
   order: the rank is the position in the order in which nextPerm lists them.
   */
  lemma {:induction false} RankMonotone(r: seq<int>, q: seq<int>)
    requires multiset(r) == multiset(q)
    requires forall i :: 0 <= i < |r| ==> 0 <= r[i]
    requires LexLess(r, q)
    ensures Rank(r) < Rank(q)
    decreases |r|
  {
    assert |r| == |multiset(r)| == |q|;
    RankByHead(r);
    RankByHead(q);
    if r[0] < q[0] {
      DropHead(r);
      DigitGrows(multiset(r), r[0], q[0]);
      DigitOrder(CountBelow(multiset(r), r[0]), CountBelow(multiset(r), q[0]), Fact(|r| - 1), Rank(r[1..]), Rank(q[1..]));
    } else {
      SameHeadTails(r, q);
      RankMonotone(r[1..], q[1..]);
    }
  }

  /**
   Distinct rearrangements of the same non-negative values have distinct
   ranks; in particular two permutations of one length with the same rank
   are the same permutation.
   */
  lemma RankInjective(p: seq<int>, q: seq<int>)
    requires multiset(p) == multiset(q)
    requires forall i :: 0 <= i < |p| ==> 0 <= p[i]
    requires Rank(p) == Rank(q)
    ensures p == q
  {
    assert |p| == |multiset(p)| == |q|;
    LexTotal(p, q);
    if LexLess(p, q) {
      RankMonotone(p, q);
    } else if LexLess(q, p) {
      forall i | 0 <= i < |q|
        ensures 0 <= q[i]
      {
        assert q[i] in multiset(p);
      }
      RankMonotone(q, p);
    }
  }

  /** A permutation of rank n! - 1 has no ascent: nextPerm would take it to rank n!. */
  lemma NoAscentAtTop(p: seq<int>)
    requires IsPerm(p) && Rank(p) == Fact(|p|) - 1
    ensures !HasAscent(p)
  {
    if HasAscent(p) {
      SuccessorRank(p);
    }
  }

  /**
   One step of the walk: below the top rank, nextPerm moves to the
   permutation of the next rank, which is not the base permutation; at the
   top rank n! - 1 it wraps round to the base permutation.
   */
  lemma WalkStep(p: seq<int>)
    requires IsPerm(p)
    ensures Rank(p) + 1 < Fact(|p|) ==>
              && IsPerm(Successor(p)) && Rank(Successor(p)) == Rank(p) + 1
              && Successor(p) != BasePerm(|p|)
    ensures Rank(p) + 1 == Fact(|p|) ==> Successor(p) == BasePerm(|p|)
  {
    if Rank(p) + 1 < Fact(|p|) {
      if !HasAscent(p) {
        LastRank(p);
      }
      SuccessorRank(p);
      SuccessorIsPerm(p);
      BaseRank(|p|);
    } else if Rank(p) + 1 == Fact(|p|) {
      NoAscentAtTop(p);
      NoAscentWrapsToBase(p);
    }
  }
}

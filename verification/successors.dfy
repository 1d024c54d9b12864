/**
 permutation.go's `nextPerm`: the next permutation in lexicographic order
 (Knuth's Algorithm L, The Art of Computer Programming Vol. 4A, section
 7.2.1.2), wrapping round to the base permutation after the last one.

 `Successor` is the result described as a whole: the prefix before the
 rightmost ascent k, then the entry chosen to replace p[k], then the rest in
 reverse. `NextPerm` is the Go procedure itself: two backward scans, a swap
 and an in-place reversal, proved to compute `Successor`.
 */
module Successors {
  import opened Permutations
  import opened LexOrder

  /** Position i starts an ascent: p[i] < p[i+1]. */
  predicate AscentAt(p: seq<int>, i: int)
    requires 0 <= i < |p| - 1
  {
    p[i] < p[i + 1]
  }

  predicate HasAscent(p: seq<int>) {
    exists i :: 0 <= i < |p| - 1 && AscentAt(p, i)
  }

  /** The first scan of `nextPerm`, from index i downwards: the first ascent met, or -1. */
  function ScanAscent(p: seq<int>, i: int): (k: int)
    requires i < |p| - 1
    ensures k == -1 || (0 <= k <= i && AscentAt(p, k))
    ensures forall m :: k < m <= i && 0 <= m ==> !AscentAt(p, m)
    decreases if i < 0 then 0 else i + 1
  {
    if i < 0 then -1
    else if AscentAt(p, i) then i
    else ScanAscent(p, i - 1)
  }

  /** The rightmost ascent of p, or -1 when p is non-increasing. */
  function LastAscent(p: seq<int>): (k: int)
    ensures k == -1 || (0 <= k < |p| - 1 && AscentAt(p, k))
    ensures k == -1 <==> !HasAscent(p)
    ensures forall m :: k < m < |p| - 1 && 0 <= m ==> !AscentAt(p, m)
  {
    ScanAscent(p, |p| - 2)
  }

  /**
   The second scan of `nextPerm`, from index i downwards: the first index
   beyond k holding a value larger than p[k]. Since p[k] < p[k+1] the scan
   stops at k+1 at the latest, so it never yields -1.
   */
  function ScanAbove(p: seq<int>, k: int, i: int): (j: int)
    requires 0 <= k < i < |p| && AscentAt(p, k)
    ensures k < j <= i && p[k] < p[j]
    ensures forall m :: j < m <= i ==> p[m] <= p[k]
    decreases i
  {
    if p[k] < p[i] then i else ScanAbove(p, k, i - 1)
  }

  function Reverse(s: seq<int>): (r: seq<int>)
    ensures |r| == |s|
    ensures forall i :: 0 <= i < |s| ==> r[i] == s[|s| - 1 - i]
    ensures multiset(r) == multiset(s)
  {
    if |s| == 0 then []
    else
      assert s == [s[0]] + s[1..];
      Reverse(s[1..]) + [s[0]]
  }

  /**
   The rearrangement at pivot k with partner j: keep p[..k], put p[j] at k,
   and follow it with the rest of p, p[k] in place of p[j], in reverse.
   */
  function Rearrange(p: seq<int>, k: int, j: int): (q: seq<int>)
    requires 0 <= k < j < |p|
    ensures |q| == |p|
  {
    p[..k] + [p[j]] + Reverse(p[k + 1..][j - k - 1 := p[k]])
  }

  /**
   The lexicographic successor of p: the rearrangement at the rightmost
   ascent k and the rightmost index j beyond it holding a value above p[k];
   with no ascent, the base permutation.
   */
  function Successor(p: seq<int>): (q: seq<int>)
    ensures |q| == |p|
  {
    var k := LastAscent(p);
    if k < 0 then BasePerm(|p|) else Rearrange(p, k, ScanAbove(p, k, |p| - 1))
  }

  /** p with the entries at i and j exchanged. */
  function Swap(p: seq<int>, i: int, j: int): (s: seq<int>)
    requires 0 <= i < |p| && 0 <= j < |p|
    ensures |s| == |p| && s[i] == p[j] && s[j] == p[i]
    ensures forall m :: 0 <= m < |p| && m != i && m != j ==> s[m] == p[m]
    ensures multiset(s) == multiset(p)
  {
    p[i := p[j]][j := p[i]]
  }

  /**
   nextPerm as written in Go: scan back for the rightmost ascent k (none:
   return the base permutation), scan back for the rightmost j > k with
   p[k] < p[j], copy p, swap positions k and j of the copy, then reverse the
   copy from k+1 to the end. Every index used stays inside the sequence, and
   the argument is never changed (the work is done on the copy).
   */
  method NextPerm(p: seq<int>) returns (q: seq<int>)
    ensures q == Successor(p)
    ensures |q| == |p|
    ensures !HasAscent(p) ==> q == BasePerm(|p|)
    ensures |p| <= 1 ==> q == BasePerm(|p|)
  {
    var k := FindLastAscent(p);
    if k == -1 {
      NoAscentWrapsToBase(p);
      return BasePerm(|p|);
    }
    var j := FindPartner(p, k);
    q := SwapAndReverse(p, k, j);
  }

  /** The tail of nextPerm: copy p, swap positions k and j of the copy, then reverse the copy after k. */
  method SwapAndReverse(p: seq<int>, k: int, j: int) returns (q: seq<int>)
    requires 0 <= k < j < |p|
    ensures q == Rearrange(p, k, j)
  {
    q := CopyPerm(p);
    q := q[k := q[j]][j := q[k]];
    ghost var s := q;
    assert s == Swap(p, k, j);
    q := ReverseFrom(q, k + 1);
    assert q == q[..k + 1] + q[k + 1..];
    RearrangeBySwap(p, k, j);
  }

  /** The rearrangement is the swap of positions k and j followed by reversing everything after k. */
  lemma RearrangeBySwap(p: seq<int>, k: int, j: int)
    requires 0 <= k < j < |p|
    ensures var s := Swap(p, k, j);
            Rearrange(p, k, j) == s[..k + 1] + Reverse(s[k + 1..])
  {
    var s := Swap(p, k, j);
    assert s[..k + 1] == p[..k] + [p[j]];
    assert s[k + 1..] == p[k + 1..][j - k - 1 := p[k]];
  }

  /** The first loop of nextPerm: walk i down from n-2 and stop at the first ascent; -1 if there is none. */
  method FindLastAscent(p: seq<int>) returns (k: int)
    ensures k == LastAscent(p)
    ensures k == -1 <==> !HasAscent(p)
  {
    var n := |p|;
    k := -1;
    var i := n - 2;
    while 0 <= i
      invariant i < n - 1
      invariant k == -1
      invariant forall m :: i < m < n - 1 && 0 <= m ==> !AscentAt(p, m)
    {
      if p[i] < p[i + 1] {
        assert AscentAt(p, i);
        k := i;
        break;
      }
      i := i - 1;
    }
    if k == -1 {
      assert !HasAscent(p);
    }
  }

  /**
   The second loop of nextPerm: walk i down from n-1 towards k and stop at
   the first value above p[k]. The loop always stops at k+1 at the latest, so
   j is never left at -1.
   */
  method FindPartner(p: seq<int>, k: int) returns (j: int)
    requires 0 <= k < |p| - 1 && AscentAt(p, k)
    ensures j == ScanAbove(p, k, |p| - 1)
    ensures k < j < |p| && p[k] < p[j]
  {
    var n := |p|;
    j := -1;
    var i := n - 1;
    while k < i
      invariant k <= i <= n - 1
      invariant j == -1
      invariant forall m :: i < m < n ==> p[m] <= p[k]
    {
      if p[k] < p[i] {
        j := i;
        break;
      }
      i := i - 1;
    }
    assert j != -1;
  }

  /**
   The reversal loop of nextPerm: swap q[a] and q[b] while moving a up from
   `from` and b down from the last index, until they meet.
   */
  method ReverseFrom(q0: seq<int>, from: int) returns (q: seq<int>)
    requires 0 <= from <= |q0|
    ensures |q| == |q0|
    ensures q[..from] == q0[..from]
    ensures q[from..] == Reverse(q0[from..])
  {
    var n := |q0|;
    q := q0;
    var a := from;
    var b := n - 1;
    while a < b
      invariant from <= a <= b + 1 <= n
      invariant a + b == n - 1 + from
      invariant |q| == n
      invariant forall m :: 0 <= m < from ==> q[m] == q0[m]
      invariant forall m :: a <= m <= b ==> q[m] == q0[m]
      invariant forall m :: from <= m < a ==> q[m] == q0[n - 1 + from - m]
      invariant forall m :: b < m < n ==> q[m] == q0[n - 1 + from - m]
    {
      q := q[a := q[b]][b := q[a]];
      a := a + 1;
      b := b - 1;
    }
    ReversedSuffix(q0, q, from);
  }

  /** Entry-wise, q keeps q0 before `from` and holds q0's suffix from there backwards. */
  lemma ReversedSuffix(q0: seq<int>, q: seq<int>, from: int)
    requires 0 <= from <= |q0| == |q|
    requires forall m :: 0 <= m < from ==> q[m] == q0[m]
    requires forall m :: from <= m < |q| ==> q[m] == q0[|q| - 1 + from - m]
    ensures q[..from] == q0[..from]
    ensures q[from..] == Reverse(q0[from..])
  {
    var n := |q|;
    var r := Reverse(q0[from..]);
    assert |q[from..]| == |r|;
    forall m | 0 <= m < |r|
      ensures q[from..][m] == r[m]
    {
      assert r[m] == q0[from..][|r| - 1 - m] == q0[n - 1 - m];
    }
  }

  // ---------------------------------------------------------------------
  // Properties of the successor
  // ---------------------------------------------------------------------

  /** Without an ascent, and in particular for any p of length at most one, the successor is the base permutation. */
  lemma NoAscentWrapsToBase(p: seq<int>)
    ensures |p| <= 1 ==> !HasAscent(p)
    ensures !HasAscent(p) ==> Successor(p) == BasePerm(|p|)
  {
  }

  /** The entries after the rightmost ascent are non-increasing. */
  lemma {:induction false} TailDescending(p: seq<int>, k: int)
    requires 0 <= k < |p|
    requires forall m :: k < m < |p| - 1 && 0 <= m ==> !AscentAt(p, m)
    ensures Descending(p[k + 1..])
  {
    forall i, j | k < i < j < |p|
      ensures p[i] >= p[j]
    {
      StepDown(p, k, i, j);
    }
  }

  lemma {:induction false} StepDown(p: seq<int>, k: int, i: int, j: int)
    requires 0 <= k < i <= j < |p|
    requires forall m :: k < m < |p| - 1 && 0 <= m ==> !AscentAt(p, m)
    ensures p[i] >= p[j]
    decreases j - i
  {
    if i < j {
      assert !AscentAt(p, i);
      StepDown(p, k, i + 1, j);
    }
  }

  /**
   The pieces a rearrangement is built from, when p[k] < p[j], the suffix
   P = p[k+1..] is non-increasing and nothing beyond j exceeds p[k]: with
   a = p[k] and b = p[j], b is the smallest value of P above a, and the new
   suffix Q is non-decreasing and holds the values of P with b traded for a.
   */
  lemma RearrangeShape(p: seq<int>, k: int, j: int)
    requires 0 <= k < j < |p| && p[k] < p[j]
    requires Descending(p[k + 1..])
    requires forall m :: j < m < |p| ==> p[m] <= p[k]
    ensures var P := p[k + 1..];
            var Q := Reverse(P[j - k - 1 := p[k]]);
            && (forall x :: x in P && p[k] < x ==> p[j] <= x)
            && Ascending(Q)
            && multiset(Q) == multiset(P) - multiset{p[j]} + multiset{p[k]}
  {
    PartnerIsNextAbove(p, k, j);
    var P := p[k + 1..];
    forall x | x in P && p[k] < x
      ensures p[j] <= x
    {
      var i :| 0 <= i < |P| && P[i] == x;
      assert P[i] == p[k + 1 + i];
    }
    var T := P[j - k - 1 := p[k]];
    assert Descending(T) by {
      TradedDescending(p, k, j);
    }
    ReverseDescending(T);
    assert multiset(T) == multiset(P) - multiset{p[j]} + multiset{p[k]} by {
      assert P[j - k - 1] == p[j];
    }
  }

  /** Every value of the suffix above p[k] is at least p[j]. */
  lemma PartnerIsNextAbove(p: seq<int>, k: int, j: int)
    requires 0 <= k < j < |p| && p[k] < p[j]
    requires Descending(p[k + 1..])
    requires forall m :: j < m < |p| ==> p[m] <= p[k]
    ensures forall i :: k < i < |p| && p[k] < p[i] ==> p[j] <= p[i]
  {
    var P := p[k + 1..];
    forall i | k < i < |p| && p[k] < p[i]
      ensures p[j] <= p[i]
    {
      assert P[i - k - 1] == p[i];
      assert P[j - k - 1] == p[j];
    }
  }

  /** Putting p[k] in place of p[j] keeps the suffix non-increasing. */
  lemma TradedDescending(p: seq<int>, k: int, j: int)
    requires 0 <= k < j < |p| && p[k] < p[j]
    requires Descending(p[k + 1..])
    requires forall m :: j < m < |p| ==> p[m] <= p[k]
    ensures Descending(p[k + 1..][j - k - 1 := p[k]])
  {
    var P := p[k + 1..];
    var jj := j - k - 1;
    var T := P[jj := p[k]];
    forall a, b | 0 <= a < b < |T|
      ensures T[a] >= T[b]
    {
      if b == jj {
        assert T[a] == P[a] >= P[jj] == p[j];
      } else if a == jj {
        assert T[b] == P[b] == p[k + 1 + b];
      }
    }
  }

  /** p and its rearrangement split into the shared prefix p[..k] and differing suffixes. */
  lemma RearrangeSplit(p: seq<int>, k: int, j: int)
    requires 0 <= k < j < |p|
    ensures p == p[..k] + ([p[k]] + p[k + 1..])
    ensures Rearrange(p, k, j) == p[..k] + ([p[j]] + Reverse(p[k + 1..][j - k - 1 := p[k]]))
  {
    assert p == p[..k] + ([p[k]] + p[k + 1..]);
  }

  lemma ReverseDescending(t: seq<int>)
    requires Descending(t)
    ensures Ascending(Reverse(t))
  {
    var q := Reverse(t);
    forall a, b | 0 <= a < b < |q|
      ensures q[a] <= q[b]
    {
      assert q[a] == t[|t| - 1 - a];
      assert q[b] == t[|t| - 1 - b];
    }
  }

  /** The shape facts for the successor itself: its pivot and partner meet the conditions of RearrangeShape. */
  lemma SuccessorPieces(p: seq<int>) returns (k: int, j: int)
    requires HasAscent(p)
    ensures k == LastAscent(p) && j == ScanAbove(p, k, |p| - 1)
    ensures 0 <= k < j < |p| && p[k] < p[j]
    ensures Successor(p) == Rearrange(p, k, j)
    ensures Descending(p[k + 1..])
    ensures forall m :: j < m < |p| ==> p[m] <= p[k]
  {
    k := LastAscent(p);
    j := ScanAbove(p, k, |p| - 1);
    TailDescending(p, k);
  }

  /** A rearrangement holds the same values as p. */
  lemma RearrangeValues(p: seq<int>, k: int, j: int)
    requires 0 <= k < j < |p|
    ensures multiset(Rearrange(p, k, j)) == multiset(p)
  {
    var P := p[k + 1..];
    var Q := Reverse(P[j - k - 1 := p[k]]);
    RearrangeSplit(p, k, j);
    assert multiset(Rearrange(p, k, j)) == multiset(p[..k]) + (multiset{p[j]} + multiset(Q)) by {
      assert multiset([p[j]] + Q) == multiset{p[j]} + multiset(Q);
    }
    assert multiset(p) == multiset(p[..k]) + (multiset{p[k]} + multiset(P)) by {
      assert multiset([p[k]] + P) == multiset{p[k]} + multiset(P);
    }
    assert multiset{p[j]} + multiset(Q) == multiset{p[k]} + multiset(P) by {
      assert P[j - k - 1] == p[j];
      assert p[j] in multiset(P);
    }
  }

  /** On a sequence with an ascent, the successor rearranges the same values. */
  lemma SuccessorSameValues(p: seq<int>)
    requires HasAscent(p)
    ensures multiset(Successor(p)) == multiset(p)
  {
    var k, j := SuccessorPieces(p);
    RearrangeValues(p, k, j);
  }

  /** The successor of a permutation of {0, ..., n-1} is again one, of the same length. */
  lemma SuccessorIsPerm(p: seq<int>)
    requires IsPerm(p)
    ensures IsPerm(Successor(p)) && |Successor(p)| == |p|
  {
    if HasAscent(p) {
      SuccessorSameValues(p);
      RearrangedPerm(p, Successor(p));
    }
  }

  /**
   With an ascent at k, the successor agrees with p before k, is larger at k,
   and so comes strictly after p in lexicographic order.
   */
  lemma SuccessorIncreases(p: seq<int>)
    requires HasAscent(p)
    ensures var k := LastAscent(p);
            Successor(p)[..k] == p[..k] && Successor(p)[k] > p[k]
    ensures LexLess(p, Successor(p))
  {
    var k, j := SuccessorPieces(p);
    RearrangeShape(p, k, j);
    RearrangeSplit(p, k, j);
    var P := p[k + 1..];
    var Q := Reverse(P[j - k - 1 := p[k]]);
    assert Successor(p)[..k] == p[..k];
    LexSharedPrefix(p[..k], [p[k]] + P, [p[j]] + Q);
  }

  /** Behind a common prefix, the gap between s and t stays empty. */
  lemma {:induction false} NothingBetweenPrefixed(c: seq<int>, s: seq<int>, t: seq<int>, r: seq<int>)
    requires forall r' :: multiset(r') == multiset(s) ==> !(LexLess(s, r') && LexLess(r', t))
    requires multiset(r) == multiset(c + s)
    ensures !(LexLess(c + s, r) && LexLess(r, c + t))
    decreases |c|
  {
    if |c| == 0 {
      assert c + s == s && c + t == t;
    } else if LexLess(c + s, r) && LexLess(r, c + t) {
      assert 0 < |r| && r == [r[0]] + r[1..];
      assert (c + s)[0] == c[0] == (c + t)[0];
      assert r[0] == c[0];
      assert (c + s)[1..] == c[1..] + s;
      assert (c + t)[1..] == c[1..] + t;
      assert multiset(r[1..]) == multiset(r) - multiset{r[0]};
      assert c + s == [c[0]] + (c[1..] + s);
      assert multiset(c[1..] + s) == multiset(c + s) - multiset{c[0]};
      NothingBetweenPrefixed(c[1..], s, t, r[1..]);
      assert false;
    }
  }

  /**
   The step at the ascent leaves nothing in between: [a] + P with P
   non-increasing is the last arrangement starting with a, and [b] + Q with
   Q non-decreasing is the first one starting with b, the next value above a.
   */
  lemma NothingBetweenAtPivot(a: int, P: seq<int>, b: int, Q: seq<int>, r: seq<int>)
    requires a < b
    requires Descending(P) && Ascending(Q)
    requires forall x :: x in P && a < x ==> b <= x
    requires multiset(Q) == multiset(P) - multiset{b} + multiset{a}
    requires multiset(r) == multiset([a] + P)
    ensures !(LexLess([a] + P, r) && LexLess(r, [b] + Q))
  {
    if LexLess([a] + P, r) && LexLess(r, [b] + Q) {
      assert 0 < |r|;
      LexCons(a, P, r);
      LexCons(b, Q, r);
      DropHead(r);
      if r[0] == a {
        DescendingIsLexLast(P, r[1..]);
      } else {
        assert r[0] in P by {
          assert r[0] in multiset([a] + P);
        }
        AscendingIsLexFirst(Q, r[1..]);
      }
    }
  }

  /**
   nextPerm yields the immediate successor: no rearrangement of p's values
   lies strictly between p and Successor(p) in lexicographic order.
   */
  lemma SuccessorIsImmediate(p: seq<int>, r: seq<int>)
    requires HasAscent(p)
    requires multiset(r) == multiset(p)
    ensures !(LexLess(p, r) && LexLess(r, Successor(p)))
  {
    var k, j := SuccessorPieces(p);
    RearrangeShape(p, k, j);
    RearrangeSplit(p, k, j);
    var P := p[k + 1..];
    var Q := Reverse(P[j - k - 1 := p[k]]);
    forall r' | multiset(r') == multiset([p[k]] + P)
      ensures !(LexLess([p[k]] + P, r') && LexLess(r', [p[j]] + Q))
    {
      NothingBetweenAtPivot(p[k], P, p[j], Q, r');
    }
    NothingBetweenPrefixed(p[..k], [p[k]] + P, [p[j]] + Q, r);
  }

  /** No rearrangement of p's values comes after p. */
  ghost predicate IsLastArrangement(p: seq<int>) {
    forall r :: multiset(r) == multiset(p) ==> !LexLess(p, r)
  }

  /**
   p has no ascent exactly when it is the last arrangement of its values:
   nothing rearranging them comes after it.
   */
  lemma LastIffNoAscent(p: seq<int>)
    ensures !HasAscent(p) <==> IsLastArrangement(p)
  {
    if HasAscent(p) {
      var q := Successor(p);
      SuccessorSameValues(p);
      SuccessorIncreases(p);
      assert multiset(q) == multiset(p) && LexLess(p, q);
    } else {
      TailDescendingAll(p);
      forall r | multiset(r) == multiset(p)
        ensures !LexLess(p, r)
      {
        DescendingIsLexLast(p, r);
      }
    }
  }

  lemma TailDescendingAll(p: seq<int>)
    requires !HasAscent(p)
    ensures Descending(p)
  {
    if |p| > 0 {
      var c := [-1] + p;
      forall m | 0 < m < |c| - 1
        ensures !AscentAt(c, m)
      {
        assert c[m] == p[m - 1] && c[m + 1] == p[m];
        assert !AscentAt(p, m - 1);
      }
      TailDescending(c, 0);
      assert c[1..] == p;
    }
  }
}

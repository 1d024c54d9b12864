/**
 Lexicographic order on integer sequences, the order in which permutation.go's
 `nextPerm` enumerates permutations, and the sorted sequences that are the
 first and last arrangements of a multiset of values in that order.
 */
module LexOrder {

  /** a comes strictly before b: at the first index where they differ, a holds the smaller value. */
  predicate LexLess(a: seq<int>, b: seq<int>)
    decreases |a|
  {
    0 < |a| && 0 < |b| && (a[0] < b[0] || (a[0] == b[0] && LexLess(a[1..], b[1..])))
  }

  /** Non-decreasing. */
  predicate Ascending(s: seq<int>) {
    forall i, j :: 0 <= i < j < |s| ==> s[i] <= s[j]
  }

  /** Non-increasing. */
  predicate Descending(s: seq<int>) {
    forall i, j :: 0 <= i < j < |s| ==> s[i] >= s[j]
  }

  /** Comparing against a sequence given by its head and tail. */
  lemma LexCons(x: int, s: seq<int>, r: seq<int>)
    requires 0 < |r|
    ensures LexLess([x] + s, r) <==> x < r[0] || (x == r[0] && LexLess(s, r[1..]))
    ensures LexLess(r, [x] + s) <==> r[0] < x || (r[0] == x && LexLess(r[1..], s))
  {
    assert ([x] + s)[0] == x && ([x] + s)[1..] == s;
  }

  /** Dropping the head takes one copy of it out of the values. */
  lemma DropHead(r: seq<int>)
    requires 0 < |r|
    ensures r[0] in multiset(r)
    ensures multiset(r[1..]) == multiset(r) - multiset{r[0]}
  {
    assert r == [r[0]] + r[1..];
  }

  /**
   LexLess is a strict order, so "the next lexicographical permutation" is
   well defined: it is irreflexive ...
   */
  lemma {:induction false} LexIrreflexive(a: seq<int>)
    ensures !LexLess(a, a)
    decreases |a|
  {
    if 0 < |a| {
      LexIrreflexive(a[1..]);
    }
  }

  /** ... and transitive. */
  lemma {:induction false} LexTransitive(a: seq<int>, b: seq<int>, c: seq<int>)
    requires LexLess(a, b) && LexLess(b, c)
    ensures LexLess(a, c)
    decreases |a|
  {
    if a[0] == b[0] && b[0] == c[0] {
      LexTransitive(a[1..], b[1..], c[1..]);
    }
  }

  /** Any two sequences of one length are equal or ordered one way or the other. */
  lemma {:induction false} LexTotal(a: seq<int>, b: seq<int>)
    requires |a| == |b|
    ensures a == b || LexLess(a, b) || LexLess(b, a)
    decreases |a|
  {
    if 0 < |a| && a[0] == b[0] {
      LexTotal(a[1..], b[1..]);
      if a[1..] == b[1..] {
        assert a == [a[0]] + a[1..] && b == [b[0]] + b[1..];
      }
    }
  }

  /** A shared prefix does not affect the order. */
  lemma {:induction false} LexSharedPrefix(c: seq<int>, a: seq<int>, b: seq<int>)
    ensures LexLess(c + a, c + b) <==> LexLess(a, b)
    decreases |c|
  {
    if |c| == 0 {
      assert c + a == a && c + b == b;
    } else {
      assert (c + a)[0] == c[0] == (c + b)[0];
      assert (c + a)[1..] == c[1..] + a;
      assert (c + b)[1..] == c[1..] + b;
      LexSharedPrefix(c[1..], a, b);
    }
  }

  /** A non-decreasing sequence is the first arrangement of its values: nothing comes before it. */
  lemma {:induction false} AscendingIsLexFirst(s: seq<int>, r: seq<int>)
    requires Ascending(s) && multiset(r) == multiset(s)
    ensures !LexLess(r, s)
    decreases |s|
  {
    if 0 < |s| && 0 < |r| {
      DropHead(r);
      DropHead(s);
      assert s[0] <= r[0];
      if r[0] == s[0] {
        AscendingIsLexFirst(s[1..], r[1..]);
      }
    }
  }

  /** A non-increasing sequence is the last arrangement of its values: nothing comes after it. */
  lemma {:induction false} DescendingIsLexLast(s: seq<int>, r: seq<int>)
    requires Descending(s) && multiset(r) == multiset(s)
    ensures !LexLess(s, r)
    decreases |s|
  {
    if 0 < |s| && 0 < |r| {
      DropHead(r);
      DropHead(s);
      assert r[0] <= s[0];
      if r[0] == s[0] {
        DescendingIsLexLast(s[1..], r[1..]);
      }
    }
  }
}

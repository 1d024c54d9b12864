/**
 The `factorial` helper of main.go, on a 64-bit platform, where Go's `int`
 is a 64-bit signed integer (Go also allows a 32-bit `int`).

 `Fact` is the mathematical reference (an unbounded integer); the method
 `Factorial` is the Go loop, whose multiplication wraps around modulo 2^64
 as Go's 64-bit `int` arithmetic does.
 */
module Factorials {

  const TwoTo63: int := 0x8000_0000_0000_0000
  const TwoTo64: int := 0x1_0000_0000_0000_0000
  const MaxInt64: int := TwoTo63 - 1
  const MinInt64: int := -TwoTo63

  /** Largest point count the exhaustive solver accepts (main.go's `15 < len(ps)` guard). */
  const MaxEnumerated: nat := 15

  predicate IsInt64(x: int) {
    MinInt64 <= x <= MaxInt64
  }

  /** Two's-complement wrap-around of a mathematical integer into Go's `int`. */
  function Wrap64(x: int): (w: int)
    ensures IsInt64(w)
    ensures IsInt64(x) ==> w == x
    ensures (x - w) % TwoTo64 == 0
  {
    (x + TwoTo63) % TwoTo64 - TwoTo63
  }

  /** n! for n >= 2 and 1 for every n < 2, negative n included. */
  function Fact(n: int): (f: int)
    ensures 1 <= f
    ensures 2 <= n ==> n <= f
    decreases if n < 2 then 0 else n
  {
    if n < 2 then 1 else n * Fact(n - 1)
  }

  /** The recurrence n! == n * (n-1)! for every n >= 1. */
  lemma FactSucc(m: nat)
    ensures Fact(m + 1) == (m + 1) * Fact(m)
  {
  }

  /** Factorial never decreases as its argument grows. */
  lemma {:induction false} FactMonotone(m: int, n: int)
    requires m <= n
    ensures Fact(m) <= Fact(n)
    decreases n - m
  {
    if m < n {
      FactMonotone(m, n - 1);
      if 2 <= n {
        MulGrows(n, Fact(n - 1));
      }
    }
  }

  lemma MulGrows(a: int, b: int)
    requires 1 <= a && 0 <= b
    ensures b <= a * b
  {
    assert a * b == (a - 1) * b + b;
    assert 0 <= (a - 1) * b;
  }

  /** 20! is the largest factorial that fits in a 64-bit signed integer. */
  lemma Fact20()
    ensures Fact(20) == 2432902008176640000
    ensures Fact(20) <= MaxInt64
    ensures Fact(21) > MaxInt64
  {
    assert Fact(2) == 2;
    assert Fact(5) == 120;
    assert Fact(10) == 3628800;
    assert Fact(15) == 1307674368000;
    assert Fact(20) == 2432902008176640000;
  }

  /**
   Every point count the exhaustive solver accepts has a factorial that is
   representable as a 64-bit Go `int`. naiveSoln itself keeps no count; the
   bound is what lets a 64-bit counter of its rounds, such as the one in
   Enumeration.CountPerms, hold n! without overflow.
   */
  lemma EnumerationCountFits(n: int)
    requires n <= MaxEnumerated
    ensures Fact(n) <= Fact(15) == 1307674368000
    ensures IsInt64(Fact(n))
  {
    Fact20();
    FactMonotone(n, 15);
  }

  /** Reducing a factor modulo 2^64 before multiplying does not change the wrapped product. */
  lemma WrapMul(a: int, i: int)
    ensures Wrap64(Wrap64(a) * i) == Wrap64(a * i)
  {
    var w := Wrap64(a);
    var c := (a - w) / TwoTo64;
    assert a - w == TwoTo64 * c;
    var d := c * i;
    assert a * i - w * i == (a - w) * i;
    assert w * i == a * i - TwoTo64 * d;
    ShiftMod(a * i + TwoTo63, d);
  }

  lemma ShiftMod(x: int, d: int)
    ensures (x - TwoTo64 * d) % TwoTo64 == x % TwoTo64
  {
  }

  /**
   From 21 on, 64-bit `factorial` no longer returns n!: the wrapped 21! is
   negative and smaller than 20!, so the Go function is neither positive nor
   non-decreasing there.
   */
  lemma WrapsAfter20()
    ensures Wrap64(Fact(21)) == -4249290049419214848
    ensures Wrap64(Fact(21)) < 1 && Wrap64(Fact(21)) < Wrap64(Fact(20))
    ensures Wrap64(Fact(21)) != Fact(21)
  {
    Fact20();
    assert Fact(21) == 21 * Fact(20);
  }

  /**
   main.go's `factorial`: `f` starts at 1 and is multiplied by 2, 3, ..., n in
   Go's wrapping 64-bit arithmetic. For n == MaxInt64 the Go counter `i`
   would wrap before exceeding n and the loop would not terminate, so that
   argument is excluded.
   */
  method Factorial(n: int) returns (f: int)
    requires IsInt64(n) && n < MaxInt64
    ensures IsInt64(f)
    ensures f == Wrap64(Fact(n))
    ensures n < 2 ==> f == 1
    ensures n <= 20 ==> f == Fact(n)
  {
    f := 1;
    var i := 2;
    while i <= n
      invariant 2 <= i
      invariant i <= n + 1 || i == 2
      invariant f == Wrap64(Fact(i - 1))
    {
      WrapMul(Fact(i - 1), i);
      assert Fact(i) == i * Fact(i - 1);
      f := Wrap64(f * i);
      i := i + 1;
    }
    if n <= 20 {
      Fact20();
      FactMonotone(n, 20);
    }
  }
}

/** The 48-bit linear congruential generator. */
module Rand {
  import opened Arith

  const MULTIPLIER := 0x5DEECE66D
  const INCREMENT := 0xB
  const MODULUS := 0x1_0000_0000_0000
  const RAND_MAX := 2147483647

  /** Shifting right by 12 bits divides by this; so many states share their high part. */
  const BLOCK := 0x1000

  /** One step of the state, on integers reduced to 48 bits. */
  function Step(s: nat): nat {
    (s * MULTIPLIER + INCREMENT) % MODULUS
  }

  /** What a call returns for the state it has just stored: the argument of the macro do_div
      is not parenthesised there, so the "+ 1" is added after the remainder is taken. */
  function Output(s: nat): nat {
    s / BLOCK % RAND_MAX + 1
  }

  class Generator {
    var next: nat

    ghost predicate Valid()
      reads this
    {
      next < MODULUS
    }

    constructor ()
      ensures Valid() && next == 1
    {
      next := 1;
    }

    method Srand(seed: nat)
      requires seed < 0x1_0000_0000
      modifies this
      ensures Valid() && next == seed
    {
      next := seed;
    }

    /** The 64-bit product wraps before the mask is applied. */
    method Next() returns (r: int)
      requires Valid()
      modifies this
      ensures Valid() && next == Step(old(next))
      ensures r == Output(next) && 1 <= r <= RAND_MAX
      ensures (old(next) * 25214903917 + 11 - next) % MODULUS == 0
      ensures (next / 4096 + 1 - r) % RAND_MAX == 0
    {
      var product := next * MULTIPLIER + INCREMENT;
      next := product % 0x1_0000_0000_0000_0000 % MODULUS;
      ModMod(product, MODULUS, 0x1_0000);
      var result := next / BLOCK;
      r := result % RAND_MAX + 1;
      assert product - next == MODULUS * (product / MODULUS);
      DivModUnique(product - next, MODULUS, product / MODULUS, 0);
      assert result + 1 - r == RAND_MAX * (result / RAND_MAX);
      DivModUnique(result + 1 - r, RAND_MAX, result / RAND_MAX, 0);
    }
  }

  function Iterate(s: nat, n: nat): nat {
    if n == 0 then s else Step(Iterate(s, n - 1))
  }

  /** The first states and values from the seeds 0 and 1, the second of which is the state at
      start-up; they fix the increment and the multiplier. */
  lemma FirstCalls()
    ensures Iterate(0, 1) == 11 && Output(Iterate(0, 1)) == 1
    ensures Iterate(1, 1) == 11 + 25214903917 && Output(Iterate(1, 1)) == 6155983
  {
    assert Iterate(0, 0) == 0 && Iterate(1, 0) == 1;
  }

  // ----- The same map without reduction

  function Affine(x: int, n: nat): int {
    if n == 0 then x else Affine(x, n - 1) * MULTIPLIER + INCREMENT
  }

  lemma {:induction false} IterateReducesAffine(s: nat, n: nat)
    requires s < MODULUS
    ensures Iterate(s, n) == Affine(s, n) % MODULUS
  {
    if n > 0 {
      IterateReducesAffine(s, n - 1);
      var a := Affine(s, n - 1);
      var z := CongruentTo(a % MODULUS, a, MODULUS);
      var b := a % MODULUS * MULTIPLIER + INCREMENT;
      assert b == Affine(s, n) + MODULUS * (z * MULTIPLIER);
      CongruentFrom(b, Affine(s, n), MODULUS, z * MULTIPLIER);
    }
  }

  lemma {:induction false} AffineCompose(x: int, m: nat, n: nat)
    ensures Affine(x, m + n) == Affine(Affine(x, m), n)
  {
    if n > 0 {
      AffineCompose(x, m, n - 1);
    }
  }

  // ----- 2^k steps at once

  function JumpFactor(k: nat): int {
    if k == 0 then MULTIPLIER else JumpFactor(k - 1) * JumpFactor(k - 1)
  }

  function JumpOffset(k: nat): int {
    if k == 0 then INCREMENT else JumpOffset(k - 1) * (JumpFactor(k - 1) + 1)
  }

  lemma SquareAffine(f: int, c: int, x: int)
    ensures f * (f * x + c) + c == f * f * x + c * (f + 1)
  {
  }

  lemma {:induction false} JumpIsAffine(x: int, k: nat)
    ensures Affine(x, Pow2(k)) == JumpFactor(k) * x + JumpOffset(k)
    decreases k
  {
    if k == 0 {
      assert Pow2(0) == 1 && Affine(x, 1) == Affine(x, 0) * MULTIPLIER + INCREMENT;
    } else {
      var half, f, c := Pow2(k - 1), JumpFactor(k - 1), JumpOffset(k - 1);
      calc {
        Affine(x, half + half);
        { AffineCompose(x, half, half); }
        Affine(Affine(x, half), half);
        { JumpIsAffine(Affine(x, half), k - 1); }
        f * Affine(x, half) + c;
        { JumpIsAffine(x, k - 1); }
        f * (f * x + c) + c;
        { SquareAffine(f, c, x); }
        f * f * x + c * (f + 1);
      }
    }
  }

  /** The multiplier is 1 modulo 4, so its 2^k-th power is 1 modulo 2^(k+2). */
  lemma {:induction false} JumpFactorShape(k: nat) returns (q: int)
    ensures JumpFactor(k) == 1 + Pow2(k + 2) * q
  {
    if k == 0 {
      q := MULTIPLIER / 4;
      assert Pow2(2) == 4;
    } else {
      var h := JumpFactorShape(k - 1);
      var p := Pow2(k + 1);
      q := h + h * h * Pow2(k);
      assert Pow2(k + 2) == 2 * p && p == 2 * Pow2(k);
      assert (1 + p * h) * (1 + p * h) == 1 + 2 * p * h + p * p * (h * h);
      assert p * p * (h * h) == 2 * p * (Pow2(k) * (h * h));
      assert 2 * p * q == 2 * p * h + 2 * p * (h * h * Pow2(k));
    }
  }

  /** The offset of 2^k steps is an odd multiple of 2^k. */
  lemma {:induction false} JumpOffsetShape(k: nat) returns (q: int)
    ensures JumpOffset(k) == Pow2(k) * (2 * q + 1)
  {
    if k == 0 {
      q := INCREMENT / 2;
    } else {
      var h := JumpOffsetShape(k - 1);
      var f := JumpFactorShape(k - 1);
      // Here f is a multiple of 4 * Pow2(k - 1), so JumpFactor(k - 1) + 1 is twice an odd number.
      var e := Pow2(k - 1) * f;
      assert Pow2(k + 1) * f == 4 * e;
      q := 2 * h * e + h + e;
      OddTimesOdd(Pow2(k - 1), h, e);
    }
  }

  lemma OddTimesOdd(p: int, h: int, e: int)
    ensures p * (2 * h + 1) * (2 + 4 * e) == 2 * p * (2 * (2 * h * e + h + e) + 1)
  {
    var odd := 2 * (2 * h * e + h + e) + 1;
    assert (2 * h + 1) * (2 + 4 * e) == 2 * odd;
  }

  lemma JumpArithmetic(x: int, p: int, f: int, c: int)
    ensures (1 + 4 * p * f) * x + p * (2 * c + 1) == x + p + 2 * p * (2 * f * x + c)
  {
  }

  /** 2^k steps add 2^k modulo 2^(k+1). */
  lemma JumpAdds(x: int, k: nat)
    ensures Affine(x, Pow2(k)) % Pow2(k + 1) == (x + Pow2(k)) % Pow2(k + 1)
  {
    JumpIsAffine(x, k);
    var f := JumpFactorShape(k);
    var c := JumpOffsetShape(k);
    JumpArithmetic(x, Pow2(k), f, c);
    assert Pow2(k + 2) * f == 4 * Pow2(k) * f;
    CongruentFrom(Affine(x, Pow2(k)), x + Pow2(k), Pow2(k + 1), 2 * f * x + c);
  }

  lemma {:induction false} JumpsAdd(x: int, k: nat, j: nat)
    ensures Affine(x, Pow2(k) * j) % Pow2(k + 1) == (x + Pow2(k) * j) % Pow2(k + 1)
  {
    var p, m := Pow2(k), Pow2(k + 1);
    if j == 0 {
      assert p * j == 0;
    } else {
      var n := p * (j - 1);
      assert p * j == n + p;
      JumpsAdd(x, k, j - 1);
      AffineCompose(x, n, p);
      JumpAdds(Affine(x, n), k);
      var z := CongruentTo(Affine(x, n), x + n, m);
      CongruentFrom(Affine(x, n) + p, x + n + p, m, z);
    }
  }

  /** The low k bits of the unreduced sequence recur after n steps exactly when 2^k divides n. */
  lemma {:induction false} Recurs(x: int, n: nat, k: nat)
    ensures Affine(x, n) % Pow2(k) == x % Pow2(k) <==> n % Pow2(k) == 0
  {
    if k > 0 {
      var p := Pow2(k - 1);
      Recurs(x, n, k - 1);
      CoarserResidue(Affine(x, n), x, p);
      CoarserResidue(n, 0, p);
      if n % p == 0 {
        assert n == p * (n / p);
        JumpsAdd(x, k - 1, n / p);
        ShiftCongruent(x, n, 2 * p);
      }
    }
  }

  /** Some number of steps below 2^k brings the low k bits to those of v. */
  lemma {:induction false} Reaches(x: int, v: int, k: nat) returns (n: nat)
    ensures n < Pow2(k) && Affine(x, n) % Pow2(k) == v % Pow2(k)
  {
    n := 0;
    if k > 0 {
      var p := Pow2(k - 1);
      n := Reaches(x, v, k - 1);
      FinerResidue(v, Affine(x, n), p);
      if Affine(x, n) % (2 * p) != v % (2 * p) {
        AffineCompose(x, n, p);
        JumpAdds(Affine(x, n), k - 1);
        n := n + p;
      }
    }
  }

  // ----- Main results

  /** The low k bits of the state, for any k up to 48, repeat exactly every 2^k calls; with
      k = 48 this is the period of the generator, the same from every state. */
  lemma LowBitsPeriod(s: nat, i: nat, j: nat, k: nat)
    requires s < MODULUS && k <= 48
    ensures Iterate(s, i) % Pow2(k) == Iterate(s, j) % Pow2(k) <==> i % Pow2(k) == j % Pow2(k)
  {
    hide Iterate;
    if i <= j {
      LowBitsRecur(s, i, j - i, k);
      ShiftCongruent(i, j - i, Pow2(k));
    } else {
      LowBitsRecur(s, j, i - j, k);
      ShiftCongruent(j, i - j, Pow2(k));
    }
  }

  lemma LowBitsRecur(s: nat, i: nat, n: nat, k: nat)
    requires s < MODULUS && k <= 48
    ensures Iterate(s, i + n) % Pow2(k) == Iterate(s, i) % Pow2(k) <==> n % Pow2(k) == 0
  {
    LowBitsOfState(s, i, k);
    LowBitsOfState(s, i + n, k);
    AffineCompose(s, i, n);
    Recurs(Affine(s, i), n, k);
  }

  lemma LowBitsOfState(s: nat, n: nat, k: nat)
    requires s < MODULUS && k <= 48
    ensures Iterate(s, n) % Pow2(k) == Affine(s, n) % Pow2(k)
  {
    IterateReducesAffine(s, n);
    Pow2Of48();
    Pow2Add(k, 48 - k);
    ModMod(Affine(s, n), Pow2(k), Pow2(48 - k));
  }

  lemma StateIsReduced(s: nat, n: nat)
    requires s < MODULUS
    ensures Iterate(s, n) < MODULUS
  {
    IterateReducesAffine(s, n);
  }

  /** Two calls leave the same state exactly when their numbers differ by a multiple of 2^48. */
  lemma StatePeriod(s: nat, i: nat, j: nat)
    requires s < MODULUS
    ensures Iterate(s, i) == Iterate(s, j) <==> i % MODULUS == j % MODULUS
  {
    Pow2Of48();
    LowBitsPeriod(s, i, j, 48);
    StateIsReduced(s, i);
    StateIsReduced(s, j);
    ModSmall(Iterate(s, i), MODULUS);
    ModSmall(Iterate(s, j), MODULUS);
  }

  /** From any state, 2^48 calls come back to it and visit every 48-bit value exactly once. */
  lemma FullPeriod(s: nat, v: nat)
    requires s < MODULUS && v < MODULUS
    ensures Iterate(s, MODULUS) == s
    ensures exists i: nat :: i < MODULUS && Iterate(s, i) == v
    ensures forall i: nat, j: nat | i < MODULUS && j < MODULUS ::
              Iterate(s, i) == v && Iterate(s, j) == v ==> i == j
  {
    StatePeriod(s, MODULUS, 0);
    Visits(s, v);
    forall i: nat, j: nat | i < MODULUS && j < MODULUS && Iterate(s, i) == v && Iterate(s, j) == v
      ensures i == j
    {
      StatePeriod(s, i, j);
      ModSmall(i, MODULUS);
      ModSmall(j, MODULUS);
    }
  }

  lemma Visits(s: nat, v: nat)
    requires s < MODULUS && v < MODULUS
    ensures exists i: nat :: i < MODULUS && Iterate(s, i) == v
  {
    var n := Reaches(s, v, 48);
    Pow2Of48();
    IterateReducesAffine(s, n);
    assert Iterate(s, n) == v;
  }

  /** Within one period a call returns every value from 1 to RAND_MAX, and no call ever
      returns anything else; in particular never 0. */
  lemma ReturnedValues(s: nat, v: int)
    requires s < MODULUS
    ensures (exists i: nat :: 1 <= i <= MODULUS && Output(Iterate(s, i)) == v) <==> 1 <= v <= RAND_MAX
  {
    if 1 <= v <= RAND_MAX {
      var state := BLOCK * (v - 1);
      assert Output(state) == v;
      FullPeriod(s, state);
      var i: nat :| i < MODULUS && Iterate(s, i) == state;
      if i == 0 {
        assert Output(Iterate(s, MODULUS)) == v;
      }
    }
  }

  // ----- How often each value is returned

  ghost function CallsReturning(s: nat, v: int): set<nat> {
    set i: nat | 1 <= i <= MODULUS && Output(Iterate(s, i)) == v
  }

  ghost function StatesBelow(n: nat, v: int): set<nat> {
    set x: nat | x < n && Output(x) == v
  }

  ghost function Interval(lo: nat, n: nat): (r: set<nat>)
    ensures |r| == n && forall x: nat :: x in r <==> lo <= x < lo + n
  {
    if n == 0 then {} else Interval(lo, n - 1) + {lo + n - 1}
  }

  /** Each run of RAND_MAX high parts gives every value once, so 4096 times counting the
      low parts. */
  lemma {:induction false} FullRoundsCount(k: nat, v: int)
    requires 1 <= v <= RAND_MAX
    ensures |StatesBelow(BLOCK * RAND_MAX * k, v)| == BLOCK * k
  {
    if k == 0 {
      assert StatesBelow(0, v) == {};
    } else {
      FullRoundsCount(k - 1, v);
      PartialRoundCount(k - 1, RAND_MAX, v);
    }
  }

  lemma OutputInRound(k: nat, x: nat, v: int)
    requires BLOCK * RAND_MAX * k <= x < BLOCK * RAND_MAX * k + BLOCK * RAND_MAX
    ensures Output(x) == v <==>
            BLOCK * RAND_MAX * k + BLOCK * (v - 1) <= x < BLOCK * RAND_MAX * k + BLOCK * v
  {
    DivModUnique(x / BLOCK, RAND_MAX, k, x / BLOCK - RAND_MAX * k);
  }

  /** The first n high parts of a round give the values 1 to n. */
  lemma PartialRoundCount(k: nat, n: nat, v: int)
    requires 1 <= v <= RAND_MAX && n <= RAND_MAX
    ensures |StatesBelow(BLOCK * (RAND_MAX * k + n), v)|
            == |StatesBelow(BLOCK * RAND_MAX * k, v)| + if v <= n then BLOCK else 0
  {
    hide Output;
    var start := BLOCK * RAND_MAX * k;
    var block := Interval(start + BLOCK * (v - 1), BLOCK);
    forall x: nat | start <= x < start + BLOCK * n
      ensures Output(x) == v <==> x in block
    {
      OutputInRound(k, x, v);
    }
    if v <= n {
      assert StatesBelow(start + BLOCK * n, v) == StatesBelow(start, v) + block;
    } else {
      assert StatesBelow(start + BLOCK * n, v) == StatesBelow(start, v);
    }
  }

  /** A map that is one-to-one and onto keeps the number of elements. */
  lemma {:induction false} SameSize(xs: set<nat>, ys: set<nat>, f: nat -> nat)
    requires forall x | x in xs :: f(x) in ys
    requires forall x, x' | x in xs && x' in xs && f(x) == f(x') :: x == x'
    requires forall y | y in ys :: exists x :: x in xs && f(x) == y
    ensures |xs| == |ys|
  {
    if xs == {} {
      assert ys == {};
    } else {
      var x :| x in xs;
      forall y | y in ys - {f(x)}
        ensures exists x' :: x' in xs - {x} && f(x') == y
      {
        var x' :| x' in xs && f(x') == y;
        assert x' in xs - {x};
      }
      SameSize(xs - {x}, ys - {f(x)}, f);
    }
  }

  /** Over one period the values 1 to 32 are returned 33 * 4096 times each, all others up to
      RAND_MAX 32 * 4096 times, from whatever state the period starts. */
  lemma ReturnFrequency(s: nat, v: int)
    requires s < MODULUS && 1 <= v <= RAND_MAX
    ensures |CallsReturning(s, v)| == BLOCK * if v <= 32 then 33 else 32
  {
    FullRoundsCount(32, v);
    PartialRoundCount(32, 32, v);
    CallsAreStates(s, v);
  }

  /** As many calls of a period return v as there are states that give v. */
  lemma CallsAreStates(s: nat, v: int)
    requires s < MODULUS
    ensures |CallsReturning(s, v)| == |StatesBelow(MODULUS, v)|
  {
    hide Output;
    var f := (i: nat) => Iterate(s, i);
    var calls, states := CallsReturning(s, v), StatesBelow(MODULUS, v);
    forall i | i in calls ensures f(i) in states {
      StateIsReduced(s, i);
    }
    forall i, j | i in calls && j in calls && f(i) == f(j) ensures i == j {
      DistinctCalls(s, i, j);
    }
    forall x | x in states ensures exists i :: i in calls && f(i) == x {
      var i := CallReaching(s, x);
      assert f(i) == x && i in calls;
    }
    SameSize(calls, states, f);
  }

  lemma DistinctCalls(s: nat, i: nat, j: nat)
    requires s < MODULUS && 1 <= i <= MODULUS && 1 <= j <= MODULUS && Iterate(s, i) == Iterate(s, j)
    ensures i == j
  {
    StatePeriod(s, i, j);
    var z := CongruentTo(i, j, MODULUS);
    assert i - j == MODULUS * z;
  }

  lemma CallReaching(s: nat, x: nat) returns (i: nat)
    requires s < MODULUS && x < MODULUS
    ensures 1 <= i <= MODULUS && Iterate(s, i) == x
  {
    hide Step;
    FullPeriod(s, x);
    i :| i < MODULUS && Iterate(s, i) == x;
    if i == 0 {
      i := MODULUS;
    }
  }
}

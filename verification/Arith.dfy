/** Powers of two, and congruences with their quotients made explicit. */
module Arith {

  function Pow2(k: nat): (p: nat)
    ensures p >= 1
  {
    if k == 0 then 1 else 2 * Pow2(k - 1)
  }

  lemma {:induction false} Pow2Add(j: nat, k: nat)
    ensures Pow2(j + k) == Pow2(j) * Pow2(k)
  {
    if k > 0 {
      Pow2Add(j, k - 1);
      assert Pow2(j + k) == 2 * Pow2(j + (k - 1));
      assert Pow2(j) * (2 * Pow2(k - 1)) == 2 * (Pow2(j) * Pow2(k - 1));
    }
  }

  lemma Pow2Of32()
    ensures Pow2(32) == 0x1_0000_0000
  {
    assert Pow2(4) == 0x10;
    Pow2Add(4, 4);
    Pow2Add(8, 8);
    Pow2Add(16, 16);
  }

  lemma Pow2Of48()
    ensures Pow2(48) == 0x1_0000_0000_0000
  {
    Pow2Of32();
    assert Pow2(4) == 0x10;
    Pow2Add(4, 4);
    Pow2Add(8, 8);
    Pow2Add(32, 16);
  }

  lemma DivModUnique(n: int, m: int, q: int, r: int)
    requires m > 0 && 0 <= r < m && n == m * q + r
    ensures n / m == q && n % m == r
  {
    var d := n / m - q;
    assert m * d == r - n % m by {
      assert n == m * (n / m) + n % m;
      assert m * (n / m) - m * q == m * (n / m - q);
    }
    assert d >= 1 ==> m * d >= m;
    assert d <= -1 ==> m * d <= -m;
  }

  lemma ModSmall(n: int, m: int)
    requires 0 <= n < m
    ensures n % m == n
  {
    DivModUnique(n, m, 0, n);
  }

  lemma CongruentFrom(a: int, b: int, m: int, z: int)
    requires m > 0 && a == b + m * z
    ensures a % m == b % m
  {
    assert a == m * (b / m + z) + b % m;
    DivModUnique(a, m, b / m + z, b % m);
  }

  lemma CongruentTo(a: int, b: int, m: int) returns (z: int)
    requires m > 0 && a % m == b % m
    ensures a == b + m * z
  {
    z := a / m - b / m;
    assert m * z == m * (a / m) - m * (b / m);
  }

  /** Adding n leaves the residue alone exactly when n is a multiple. */
  lemma ShiftCongruent(x: int, n: int, m: int)
    requires m > 0
    ensures (x + n) % m == x % m <==> n % m == 0
  {
    if (x + n) % m == x % m {
      var z := CongruentTo(x + n, x, m);
      DivModUnique(n, m, z, 0);
    }
    if n % m == 0 {
      CongruentFrom(x + n, x, m, n / m);
    }
  }

  lemma CoarserResidue(a: int, b: int, p: int)
    requires p > 0
    ensures a % (2 * p) == b % (2 * p) ==> a % p == b % p
  {
    if a % (2 * p) == b % (2 * p) {
      var z := CongruentTo(a, b, 2 * p);
      assert 2 * p * z == p * (2 * z);
      CongruentFrom(a, b, p, 2 * z);
    }
  }

  /** Numbers that agree modulo p agree modulo 2p, or do so once p is added to one. */
  lemma FinerResidue(a: int, b: int, p: int)
    requires p > 0 && a % p == b % p
    ensures a % (2 * p) == b % (2 * p) || a % (2 * p) == (b + p) % (2 * p)
  {
    var z := CongruentTo(a, b, p);
    var h, r := z / 2, z % 2;
    Distribute(p, h, r);
    if r == 0 {
      CongruentFrom(a, b, 2 * p, h);
    } else {
      CongruentFrom(a, b + p, 2 * p, h);
    }
  }

  lemma Distribute(p: int, h: int, r: int)
    ensures p * (2 * h + r) == 2 * p * h + p * r
  {
  }

  /** Reducing by a multiple first does not change a residue. */
  lemma ModMod(n: int, m: int, k: int)
    requires m > 0 && k > 0
    ensures m * k > 0 && n % (m * k) % m == n % m
  {
    var z := n / (m * k);
    assert m * k > 0;
    assert n == n % (m * k) + m * k * z;
    assert m * k * z == m * (k * z);
    CongruentFrom(n, n % (m * k), m, k * z);
  }

  /** What one digit step does to a number. */
  lemma DivStep(n: nat, base: nat)
    requires base >= 2
    ensures 0 <= n / base <= n && (n > 0 ==> n / base < n)
    ensures 0 <= n % base < base && n == n / base * base + n % base
    ensures n >= base ==> n / base >= 1
  {
    var q: int, b: int := n / base, base;
    assert q >= n + 1 ==> b * q >= 2 * (n + 1);
    assert q == n ==> b * q >= 2 * n;
    assert q <= -1 ==> b * q <= -b;
  }

  lemma AppendedDigit(q: nat, base: nat, d: nat)
    requires d < base
    ensures (q * base + d) / base == q && (q * base + d) % base == d
    ensures q >= 1 ==> q * base + d >= base
  {
    assert q * base == base * q;
    DivModUnique(q * base + d, base, q, d);
    if q >= 1 {
      MulMonotone(1, q, base);
    }
  }

  lemma MulMonotone(a: nat, b: nat, w: nat)
    requires a <= b
    ensures a * w <= b * w
  {
  }

  lemma MulGrows(v: nat, b: nat)
    requires b >= 1
    ensures v * b >= v
  {
  }

  /** A logical right shift. */
  function Shr(x: nat, k: nat): nat {
    if k == 0 then x else Shr(x, k - 1) / 2
  }

  lemma HalfSteps(h: nat, p: nat)
    ensures 2 * h * p == h * (2 * p) && (2 * h + 1) * p == h * (2 * p) + p
  {
  }

  lemma ShrHalves(x: nat, k: nat, h: nat)
    requires k > 0
    ensures Shr(x, k) == h <==> Shr(x, k - 1) == 2 * h || Shr(x, k - 1) == 2 * h + 1
  {
  }

  /** A shift is a division by a power of two. */
  lemma {:induction false} ShrIs(x: nat, k: nat, h: nat)
    ensures Shr(x, k) == h <==> h * Pow2(k) <= x < h * Pow2(k) + Pow2(k)
  {
    if k > 0 {
      var p := Pow2(k - 1);
      ShrIs(x, k - 1, 2 * h);
      ShrIs(x, k - 1, 2 * h + 1);
      ShrHalves(x, k, h);
      HalfSteps(h, p);
      hide Shr;
    }
  }
}

/** The multiplicative hash. */
module Hash {
  import opened Arith

  const GOLDEN_RATIO_PRIME_32 := 0x9e370001
  const WORD := 0x1_0000_0000

  type uint32 = n: int | 0 <= n < WORD

  /** The product fits 64 bits and is truncated to 32. */
  function Scramble(val: uint32): uint32 {
    val * GOLDEN_RATIO_PRIME_32 % WORD
  }

  /** The top `bits` bits of the scrambled value. */
  function Hash32(val: uint32, bits: nat): nat
    requires 1 <= bits <= 32
  {
    Shr(Scramble(val), 32 - bits)
  }

  lemma GoldenRatioPrime()
    ensures GOLDEN_RATIO_PRIME_32 == Pow2(31) + Pow2(29) - Pow2(25) + Pow2(22) - Pow2(19) - Pow2(16) + 1
  {
    assert Pow2(3) == 8 && Pow2(6) == 64 && Pow2(9) == 512 && Pow2(4) == 16;
    Pow2Add(4, 4);
    Pow2Add(8, 8);
    Pow2Add(16, 3);
    Pow2Add(16, 6);
    Pow2Add(16, 9);
    Pow2Add(16, 13);
    Pow2Add(16, 15);
    Pow2Add(9, 4);
    Pow2Add(9, 6);
  }

  /** The hash is what the top bits of the product's low 32 denote. */
  lemma TopBitsOfProduct(v: uint32, bits: nat, h: nat)
    requires 1 <= bits <= 32
    ensures var k := Pow2(31) + Pow2(29) - Pow2(25) + Pow2(22) - Pow2(19) - Pow2(16) + 1;
            Hash32(v, bits) == h <==>
            h * Pow2(32 - bits) <= v * k % Pow2(32) < (h + 1) * Pow2(32 - bits)
  {
    GoldenRatioPrime();
    Pow2Of32();
    ShrIs(Scramble(v), 32 - bits, h);
    OneMore(h, Pow2(32 - bits));
  }

  lemma OneMore(h: nat, p: nat)
    ensures (h + 1) * p == h * p + p
  {
  }

  // ----- The multiplication can be undone

  const INVERSE := 0x61c90001

  function Unscramble(x: uint32): uint32 {
    x * INVERSE % WORD
  }

  lemma MultiplyBack(v: uint32, a: int, b: int, z: int)
    requires a * b == 1 + WORD * z
    ensures v * a % WORD * b % WORD == v
  {
    var q := v * a / WORD;
    assert v * a % WORD == v * a - WORD * q;
    assert v * a % WORD * b == v + WORD * (v * z - q * b) by {
      assert (v * a - WORD * q) * b == v * (a * b) - WORD * (q * b);
      assert v * (1 + WORD * z) == v + WORD * (v * z);
    }
    DivModUnique(v * a % WORD * b, WORD, v * z - q * b, v);
  }

  lemma ScrambleIsBijective(v: uint32)
    ensures Unscramble(Scramble(v)) == v && Scramble(Unscramble(v)) == v
  {
    MultiplyBack(v, GOLDEN_RATIO_PRIME_32, INVERSE, 1013911600);
    MultiplyBack(v, INVERSE, GOLDEN_RATIO_PRIME_32, 1013911600);
  }

  // ----- Counting

  ghost predicate Inverses(f: uint32 -> uint32, g: uint32 -> uint32) {
    forall v: uint32 :: g(f(v)) == v && f(g(v)) == v
  }

  ghost function LandingIn(f: uint32 -> uint32, lo: nat, n: nat): set<uint32> {
    set v: uint32 | 0 <= v < WORD && lo <= f(v) < lo + n
  }

  /** A bijection sends as many values into an interval as the interval has members. */
  lemma {:induction false} BijectionCounts(f: uint32 -> uint32, g: uint32 -> uint32, lo: nat, n: nat)
    requires Inverses(f, g) && lo + n <= WORD
    ensures |LandingIn(f, lo, n)| == n
  {
    if n == 0 {
      assert LandingIn(f, lo, 0) == {};
    } else {
      BijectionCounts(f, g, lo, n - 1);
      var last: uint32 := lo + n - 1;
      forall v: uint32
        ensures v in LandingIn(f, lo, n) <==> v in LandingIn(f, lo, n - 1) || v == g(last)
      {
        assert g(f(v)) == v && f(g(last)) == last;
      }
      assert LandingIn(f, lo, n) == LandingIn(f, lo, n - 1) + {g(last)};
    }
  }

  // ----- Main results

  ghost function Bucket(h: nat, bits: nat): set<uint32>
    requires 1 <= bits <= 32
  {
    set v: uint32 | 0 <= v < WORD && Hash32(v, bits) == h
  }

  /** Every hash is below 2^bits, and each of these values is the hash of exactly
      2^(32 - bits) inputs. */
  lemma Equidistribution(h: nat, bits: nat)
    requires 1 <= bits <= 32
    ensures |Bucket(h, bits)| == if h < Pow2(bits) then Pow2(32 - bits) else 0
  {
    var w, f, g := Pow2(32 - bits), (v: uint32) => Scramble(v), (v: uint32) => Unscramble(v);
    forall v: uint32
      ensures Hash32(v, bits) == h <==> h * w <= f(v) < h * w + w
      ensures g(f(v)) == v && f(g(v)) == v
    {
      ShrIs(Scramble(v), 32 - bits, h);
      ScrambleIsBijective(v);
    }
    assert Bucket(h, bits) == LandingIn(f, h * w, w);
    BlockOfWord(h, bits);
    if h < Pow2(bits) {
      BijectionCounts(f, g, h * w, w);
    } else {
      assert LandingIn(f, h * w, w) == {};
    }
  }

  /** The block of w numbers that share the top bits h lies inside the word, or outside. */
  lemma BlockOfWord(h: nat, bits: nat)
    requires 1 <= bits <= 32
    ensures var w := Pow2(32 - bits);
            if h < Pow2(bits) then h * w + w <= WORD else h * w >= WORD
  {
    var w, n := Pow2(32 - bits), Pow2(bits);
    Pow2Of32();
    Pow2Add(bits, 32 - bits);
    if h < n {
      MulMonotone(h + 1, n, w);
    } else {
      MulMonotone(n, h, w);
    }
  }

  /** With all 32 bits kept, distinct inputs have distinct hashes. */
  lemma FullHashIsInjective(v: uint32, w: uint32)
    ensures Hash32(v, 32) == Hash32(w, 32) <==> v == w
  {
    assert Pow2(0) == 1;
    ScrambleIsBijective(v);
    ScrambleIsBijective(w);
  }
}

/** The per-trajectory seed: `seed ^ (traj_idx as u64).wrapping_mul(G)`
    with the odd constant G = 0x9E3779B97F4A7C15, in arithmetic modulo
    2^64. Because G is odd it has an inverse modulo 2^64, so the multiply is
    a bijection on 64-bit words, and XOR with a fixed seed is one too:
    distinct trajectory indices get distinct seeds. */
module Seed {

  const WORD: int := 0x1_0000_0000_0000_0000
  const GOLDEN: int := 0x9E37_79B9_7F4A_7C15
  /** The inverse of GOLDEN modulo 2^64. */
  const GOLDEN_INV: int := 0xF1DE_83E1_9937_733D

  /** A `u64`. */
  type U64 = x: int | 0 <= x < WORD

  /** 2^k. */
  function Pow2(k: nat): (r: nat)
    ensures r >= 1
  {
    if k == 0 then 1 else 2 * Pow2(k - 1)
  }

  /** Bitwise exclusive or of two naturals, lowest bit first. */
  function Xor(a: nat, b: nat): nat
    decreases a + b
  {
    if a == 0 && b == 0 then 0
    else 2 * Xor(a / 2, b / 2) + (if a % 2 == b % 2 then 0 else 1)
  }

  /** `(i as u64).wrapping_mul(G)`. */
  function Mix(i: U64): (r: U64)
  {
    (i * GOLDEN) % WORD
  }

  /** `seed ^ Mix(traj_idx)`. */
  function TrajSeed(seed: U64, trajIdx: U64): (r: U64)
  {
    WordIsPow2();
    XorBound(seed, Mix(trajIdx), 64);
    Xor(seed, Mix(trajIdx))
  }

  /** Xor with zero is the identity. */
  lemma {:induction false} XorZero(a: nat)
    ensures Xor(a, 0) == a && Xor(0, a) == a
    decreases a
  {
    if a > 0 {
      XorZero(a / 2);
    }
  }

  /** Xor with the same word twice gives the original back. */
  lemma {:induction false} XorCancel(a: nat, b: nat)
    ensures Xor(a, Xor(a, b)) == b
    decreases a + b
  {
    var c := Xor(a, b);
    if a == 0 && b == 0 {
    } else if a == 0 {
      XorZero(b);
      XorZero(c);
    } else {
      XorCancel(a / 2, b / 2);
      assert c / 2 == Xor(a / 2, b / 2) && c % 2 == (if a % 2 == b % 2 then 0 else 1);
      assert Xor(a, c) == 2 * Xor(a / 2, c / 2) + (if a % 2 == c % 2 then 0 else 1);
    }
  }

  /** Xor of two k-bit words is a k-bit word. */
  lemma {:induction false} XorBound(a: nat, b: nat, k: nat)
    requires a < Pow2(k) && b < Pow2(k)
    ensures Xor(a, b) < Pow2(k)
    decreases k
  {
    if k == 0 {
    } else if a == 0 && b == 0 {
    } else {
      XorBound(a / 2, b / 2, k - 1);
    }
  }

  lemma {:induction false} Pow2Add(a: nat, b: nat)
    ensures Pow2(a + b) == Pow2(a) * Pow2(b)
    decreases a
  {
    if a > 0 {
      Pow2Add(a - 1, b);
    }
  }

  lemma WordIsPow2()
    ensures Pow2(64) == WORD
  {
    assert Pow2(8) == 256;
    Pow2Add(8, 8);
    assert Pow2(16) == 0x1_0000;
    Pow2Add(16, 16);
    assert Pow2(32) == 0x1_0000_0000;
    Pow2Add(32, 32);
  }

  /** `d * m` is at least m for d >= 1 and m >= 0. */
  lemma MulAtLeastOne(d: int, m: int)
    requires d >= 1 && m >= 0
    ensures d * m >= m
  {
    assert d * m == (d - 1) * m + m;
  }

  /** The remainder is determined by any quotient-remainder split. */
  lemma ModUnique(a: int, m: int, q: int, r: int)
    requires m > 0 && a == q * m + r && 0 <= r < m
    ensures a % m == r
  {
    var q2, r2 := a / m, a % m;
    assert a == q2 * m + r2;
    assert (q - q2) * m == r2 - r;
    if q - q2 >= 1 {
      MulAtLeastOne(q - q2, m);
    } else if q2 - q >= 1 {
      MulAtLeastOne(q2 - q, m);
    }
  }

  lemma ModOfMultiplePlus(k: int, z: int, m: int)
    requires m > 0
    ensures (k * m + z) % m == z % m
  {
    var q, r := z / m, z % m;
    assert z == q * m + r;
    assert k * m + z == (k + q) * m + r;
    ModUnique(k * m + z, m, k + q, r);
  }

  lemma {:induction false} ModMulMod(x: int, y: int, m: int)
    requires m > 0
    ensures ((x % m) * y) % m == (x * y) % m
  {
    var q, r := x / m, x % m;
    assert x == q * m + r;
    assert x * y == (q * y) * m + r * y;
    ModOfMultiplePlus(q * y, r * y, m);
  }

  /** Multiplying by GOLDEN_INV undoes `Mix`. */
  lemma {:induction false} MixInverse(i: U64)
    ensures (Mix(i) * GOLDEN_INV) % WORD == i
  {
    var t := (GOLDEN * GOLDEN_INV) / WORD;
    assert GOLDEN * GOLDEN_INV == t * WORD + 1;
    ModMulMod(i * GOLDEN, GOLDEN_INV, WORD);
    assert i * GOLDEN * GOLDEN_INV == (i * t) * WORD + i;
    ModOfMultiplePlus(i * t, i, WORD);
  }

  /** Trajectory 0 runs on the base seed itself. */
  lemma TrajSeedZero(seed: U64)
    ensures TrajSeed(seed, 0) == seed
  {
    XorZero(seed);
  }

  /** For a fixed base seed, distinct trajectory indices get distinct seeds
      (and equal ones equal seeds). */
  lemma TrajSeedInjective(seed: U64, i: U64, j: U64)
    ensures TrajSeed(seed, i) == TrajSeed(seed, j) <==> i == j
  {
    if TrajSeed(seed, i) == TrajSeed(seed, j) {
      XorCancel(seed, Mix(i));
      XorCancel(seed, Mix(j));
      MixInverse(i);
      MixInverse(j);
    }
  }
}

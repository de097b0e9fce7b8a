/**
 * The `aligned` helper of vulkanwindow.cpp: `(v + byteAlign - 1) & ~(byteAlign - 1)`
 * evaluated in VkDeviceSize, i.e. unsigned 64-bit arithmetic with wrap-around.
 */
module Align {

  /** 2^64: the number of values of VkDeviceSize (uint64_t). */
  const U64: nat := 0x1_0000_0000_0000_0000

  function Pow2(k: nat): (r: nat)
    ensures r >= 1
  {
    if k == 0 then 1 else 2 * Pow2(k - 1)
  }

  /** Reduction of an intermediate result to uint64_t (C++ unsigned wrap-around). */
  function Wrap(x: int): nat
  {
    x % U64
  }

  /** Bitwise AND of two non-negative integers, bit by bit from the least significant end. */
  function BitAnd(x: nat, y: nat): (r: nat)
    ensures r <= x && r <= y
    decreases x
  {
    if x == 0 || y == 0 then 0
    else 2 * BitAnd(x / 2, y / 2) + (if x % 2 == 1 && y % 2 == 1 then 1 else 0)
  }

  /** Bitwise complement `~x` of a uint64_t. */
  function BitNot64(x: nat): nat
    requires x < U64
  {
    U64 - 1 - x
  }

  /** aligned(v, byteAlign), vulkanwindow.cpp:76-79. */
  function Aligned(v: nat, byteAlign: nat): (r: nat)
    requires v < U64 && byteAlign < U64
    ensures r < U64
  {
    BitAnd(Wrap(v + byteAlign - 1), BitNot64(Wrap(byteAlign - 1)))
  }

  lemma {:induction false} Pow2Add(a: nat, b: nat)
    ensures Pow2(a + b) == Pow2(a) * Pow2(b)
    decreases a
  {
    if a > 0 {
      Pow2Add(a - 1, b);
    }
  }

  lemma Pow2Of16()
    ensures Pow2(16) == 0x1_0000
  {
    assert Pow2(4) == 16;
    Pow2Add(4, 4);
    Pow2Add(8, 8);
  }

  lemma U64IsPow2()
    ensures Pow2(64) == U64
  {
    Pow2Of16();
    Pow2Add(16, 16);
    Pow2Add(32, 32);
  }

  /** Euclidean division is unique: q and r are the quotient and remainder of x by d. */
  lemma DivModUnique(x: int, d: int, q: int, r: int)
    requires d > 0 && 0 <= r < d && x == q * d + r
    ensures x / d == q && x % d == r
  {
    var q', r' := x / d, x % d;
    assert x == q' * d + r';
    assert (q - q') * d == r' - r;
    if q > q' {
      MulAtLeastFactor(q - q', d);
    } else if q < q' {
      MulAtLeastFactor(q' - q, d);
    }
  }

  lemma MulAtLeastFactor(m: int, d: int)
    requires m >= 1 && d > 0
    ensures m * d >= d
  {
  }

  /** Splitting off the lowest bit: x mod 2p is twice ((x div 2) mod p) plus the low bit of x. */
  lemma ModDouble(x: nat, p: nat)
    requires p > 0
    ensures x % (2 * p) == 2 * ((x / 2) % p) + x % 2
    ensures x / 2 - (x / 2) % p >= 0
  {
    var h, b := x / 2, x % 2;
    var q, u := h / p, h % p;
    Regroup(x, h, b, q, p, u);
    DivModUnique(x, 2 * p, q, 2 * u + b);
  }

  /** x = 2h + b with h = qp + u is the division of x by 2p with remainder 2u + b. */
  lemma Regroup(x: int, h: int, b: int, q: int, p: int, u: int)
    requires x == 2 * h + b && 0 <= b < 2
    requires h == q * p + u && 0 <= u < p && q >= 0
    ensures x == q * (2 * p) + (2 * u + b) && 0 <= 2 * u + b < 2 * p
    ensures u <= h
  {
    assert q * (2 * p) == 2 * (q * p);
    assert q * p >= 0;
  }

  /** AND with a mask of w low one-bits keeps every value below 2^w, passed as bound. */
  lemma {:induction false} AndLowOnes(x: nat, w: nat, bound: nat)
    requires bound == Pow2(w) && x < bound
    ensures BitAnd(x, bound - 1) == x
    decreases w
  {
    if w > 0 && x > 0 {
      Pow2Step(w);
      AndLowOnes(x / 2, w - 1, bound / 2);
      assert (bound - 1) % 2 == 1 && (bound - 1) / 2 == bound / 2 - 1;
    }
  }

  /** ANDing x with the mask m rounds x down to a multiple of q. */
  predicate ClearsLowBits(x: nat, m: nat, q: nat)
  {
    q > 0 && BitAnd(x, m) == x - x % q
  }

  /** Doubling a mask and a modulus under which x / 2 rounds down makes x round down. */
  lemma EvenMaskRoundDown(x: nat, m: nat, q: nat, m': nat, p: nat)
    requires x != 0 && m' != 0 && m == 2 * m' && q == 2 * p
    requires ClearsLowBits(x / 2, m', p)
    ensures ClearsLowBits(x, m, q)
  {
    assert m % 2 == 0 && m / 2 == m';
    ModDouble(x, p);
  }

  /** One unfolding of Pow2. */
  lemma Pow2Step(n: nat)
    requires n > 0
    ensures Pow2(n) == 2 * Pow2(n - 1)
  {
  }

  /** The cases of AndHighMask that need no induction: an all-ones mask, an empty mask, or x = 0. */
  lemma {:induction false} AndHighMaskBase(x: nat, w: nat, k: nat, bound: nat, q: nat)
    requires bound == Pow2(w) && q == Pow2(k) && q <= bound && x < bound
    requires k == 0 || bound == q || x == 0
    ensures ClearsLowBits(x, bound - q, q)
  {
    if k == 0 {
      AndLowOnes(x, w, bound);
      DivModUnique(x, 1, x, 0);
    } else if bound == q {
      DivModUnique(x, q, 0, x);
    } else {
      DivModUnique(0, q, 0, 0);
    }
  }

  /**
   * AND with the mask whose bits k..w-1 are set clears the k low bits of any value below 2^w,
   * i.e. rounds it down to a multiple of 2^k. The powers 2^w and 2^k are passed as bound and q.
   */
  lemma {:induction false} AndHighMask(x: nat, w: nat, k: nat, bound: nat, q: nat)
    requires bound == Pow2(w) && q == Pow2(k) && q <= bound && x < bound
    ensures ClearsLowBits(x, bound - q, q)
    decreases k
  {
    if k == 0 || bound == q || x == 0 {
      AndHighMaskBase(x, w, k, bound, q);
    } else {
      Pow2Step(k);
      HalveBounds(w, k, bound, q);
      AndHighMask(x / 2, w - 1, k - 1, bound / 2, q / 2);
      EvenMaskRoundDown(x, bound - q, q, bound / 2 - q / 2, q / 2);
    }
  }

  /** Halving 2^w and 2^k, for 0 < k and 2^k < 2^w, gives 2^(w-1) and 2^(k-1), still ordered. */
  lemma HalveBounds(w: nat, k: nat, bound: nat, q: nat)
    requires bound == Pow2(w) && q == Pow2(k) && q < bound && k > 0 && q == 2 * Pow2(k - 1)
    ensures w > 0 && bound == 2 * (bound / 2) && q == 2 * (q / 2)
    ensures bound / 2 == Pow2(w - 1) && q / 2 == Pow2(k - 1) && q / 2 < bound / 2
  {
    Pow2Step(w);
  }

  /** A value minus its remainder by a is a multiple of a, no larger than the value, and within a of it. */
  lemma RoundDown(t: nat, a: nat)
    requires a > 0
    ensures (t - t % a) % a == 0
    ensures t - a < t - t % a <= t
  {
    assert t - t % a == (t / a) * a;
    DivModUnique(t - t % a, a, t / a, 0);
  }

  /** Masking with ~(a - 1) for a = 2^k rounds a 64-bit value down to a multiple of a. */
  lemma {:induction false} MaskRoundsDown(t: nat, a: nat, k: nat)
    requires a == Pow2(k) && a < U64 && t < U64
    ensures ClearsLowBits(t, BitNot64(Wrap(a - 1)), a)
  {
    assert BitNot64(Wrap(a - 1)) == U64 - a;
    U64IsPow2();
    AndHighMask(t, 64, k, U64, a);
  }

  /** Without overflow, aligned(v, a) for a = 2^k rounds v + a - 1 down to a multiple of a. */
  lemma {:induction false} AlignedIsRoundDown(v: nat, a: nat, k: nat)
    requires a == Pow2(k) && a < U64 && v + a - 1 < U64
    ensures Aligned(v, a) == (v + a - 1) - (v + a - 1) % a
  {
    var t := v + a - 1;
    WrapBelow(t);
    MaskRoundsDown(t, a, k);
  }

  /**
   * For a power-of-two alignment a = 2^k and a value whose rounding does not overflow 64 bits,
   * aligned(v, a) is the least multiple of a that is at least v.
   */
  lemma {:induction false} AlignedRoundsUp(v: nat, a: nat, k: nat)
    requires a == Pow2(k) && a < U64 && v + a - 1 < U64
    ensures v <= Aligned(v, a)
    ensures Aligned(v, a) % a == 0
    ensures Aligned(v, a) - v < a
  {
    AlignedIsRoundDown(v, a, k);
    RoundUp(v, a, Aligned(v, a));
  }

  /** Rounding v + a - 1 down to a multiple of a gives the least multiple of a that is at least v. */
  lemma RoundUp(v: nat, a: nat, r: int)
    requires a > 0 && r == (v + a - 1) - (v + a - 1) % a
    ensures v <= r && r % a == 0 && r - v < a
  {
    RoundDown(v + a - 1, a);
  }

  /** Wrap-around leaves values that fit in 64 bits alone. */
  lemma WrapBelow(x: int)
    requires 0 <= x < U64
    ensures Wrap(x) == x
  {
  }

  /** Without the no-overflow condition the result can fall below v: the sum wraps to zero. */
  lemma AlignedWrapsOnOverflow()
    ensures Aligned(U64 - 1, 2) == 0
  {
  }
}

/** 64-by-32 division through multiplication by a reciprocal
    (include/asm-generic/div64.h, the 32-bit variant).

    `ReciprocalDivide` follows `__div64_const32`, `XProd64` follows
    `__arch_xprod_64`, and `DoDiv` follows the `do_div` macro.
 */
module Div64 {
  import opened Arith
  import opened Bits

  // ----- the exact arithmetic behind the multipliers

  lemma RoundUpIdentity(n: int, b: int, P: int, m: int, e: int, q: int, s: int)
    requires n == q * b + s && m * b == P + e
    ensures (m * n - q * P) * b == s * P + e * n
  {
    calc {
      (m * n - q * P) * b;
      (m * b) * n - q * b * P;
      (P + e) * n - q * b * P;
      P * (q * b + s) + e * n - q * b * P;
      s * P + e * n;
    }
  }

  /** A multiplier that is too large by `e / b` gives the right quotient of `n`
      exactly when the excess stays within the gap left by the remainder. */
  lemma RoundUpExact(n: nat, b: nat, P: nat, m: nat, e: nat)
    requires b > 0 && P > 0 && m * b == P + e
    ensures m * n / P == n / b <==> e * n < (b - n % b) * P
  {
    var q, s := n / b, n % b;
    DivSplit(n, b);
    RoundUpIdentity(n, b, P, m, e, q, s);
    var d := m * n - q * P;
    assert 0 <= s * P + e * n;
    CompareScaled(d, 0, b);
    CompareScaled(d, P, b);
    assert (b - s) * P == P * b - s * P;
    if d < P {
      DivUnique(m * n, P, q);
    } else {
      DivSplit(m * n, P);
    }
  }

  lemma RoundDownIdentity(n: int, b: int, P: int, m: int, f: int, q: int, s: int)
    requires n == q * b + s && m * b == P - f
    ensures (m + m * n - q * P) * b == (s + 1) * P - (n + 1) * f
  {
    calc {
      (m + m * n - q * P) * b;
      (m * b) * (n + 1) - q * b * P;
      (P - f) * (n + 1) - q * b * P;
      P * (q * b + s + 1) - f * (n + 1) - q * b * P;
      (s + 1) * P - (n + 1) * f;
    }
  }

  /** A multiplier that is too small by `f / b`, applied to `n + 1`, gives the right
      quotient of `n` as long as `(n + 1) * f` is positive and does not exceed `P`. */
  lemma RoundDownExact(n: nat, b: nat, P: nat, m: nat, f: nat)
    requires b > 0 && P > 0 && m * b == P - f
    requires 0 < (n + 1) * f <= P
    ensures (m + m * n) / P == n / b
  {
    var q, s := n / b, n % b;
    DivSplit(n, b);
    RoundDownIdentity(n, b, P, m, f, q, s);
    var d := m + m * n - q * P;
    MulMono(1, s + 1, P);
    MulMono(s + 1, b, P);
    CompareScaled(d, 0, b);
    CompareScaled(d, P, b);
    DivUnique(m + m * n, P, q);
  }

  // ----- the constants derived from the divisor

  /** ceil(p * 2^64 / b) for p the top bit of b: the multiplier tried first. */
  function RoundUpMultiplier(b: nat): nat
    requires b > 0
  {
    (Pow2(Ilog2(b)) * 0x1_0000_0000_0000_0000 + b - 1) / b
  }

  /** floor(p * 2^64 / b): the multiplier used together with a bias. */
  function RoundDownMultiplier(b: nat): nat
    requires b > 0
  {
    Pow2(Ilog2(b)) * 0x1_0000_0000_0000_0000 / b
  }

  /** The dividend the multiplier is probed with. */
  function ProbeDividend(b: nat): int
    requires b > 0
  {
    0xffff_ffff_ffff_ffff / b * b - 1
  }

  /** Does a multiplier m, scaled by p * 2^64, give the quotient of n by b? */
  predicate QuotientRight(m: nat, p: nat, n: nat, b: nat)
    requires p > 0 && b > 0
  {
    m * n / 0x1_0000_0000_0000_0000 / p == n / b
  }

  /** What the macro evaluates at compile time: is the rounded-up multiplier right at the probe? */
  predicate ProbeSucceeds(b: nat)
    requires 0 < b < 0x1_0000_0000
  {
    ProbeInRange(b);
    QuotientRight(RoundUpMultiplier(b), Pow2(Ilog2(b)), ProbeDividend(b), b)
  }

  lemma ProbeInRange(b: nat)
    requires 0 < b < 0x1_0000_0000
    ensures 0 <= ProbeDividend(b) < 0xffff_ffff_ffff_ffff
    ensures ProbeDividend(b) % b == b - 1
    ensures 0xffff_ffff_ffff_ffff <= ProbeDividend(b) + b
  {
    var k := 0xffff_ffff_ffff_ffff / b;
    DivSplit(0xffff_ffff_ffff_ffff, b);
    CompareScaled(0, k, b);
    MulMono(1, k, b);
    DivUnique(k * b - 1, b, k - 1);
  }

  /** The errors of the two multipliers: the first is too large by e, the second too
      small by b - e, and neither is zero unless b is a power of two. */
  lemma MultiplierErrors(b: nat) returns (p: nat, e: nat)
    requires 0 < b < 0x1_0000_0000 && !IsPowerOf2(b)
    ensures p == Pow2(Ilog2(b)) && 1 <= p < b < 2 * p && p <= 0x8000_0000
    ensures 0 < e < b
    ensures RoundUpMultiplier(b) * b == p * 0x1_0000_0000_0000_0000 + e
    ensures RoundDownMultiplier(b) * b == p * 0x1_0000_0000_0000_0000 - (b - e)
    ensures RoundUpMultiplier(b) < 0x1_0000_0000_0000_0000
    ensures RoundDownMultiplier(b) < 0x1_0000_0000_0000_0000
  {
    p := Pow2(Ilog2(b));
    TopBit(b);
    var d, f := Inexact(b);
    e := b - f;
    NextMultiple(p * 0x1_0000_0000_0000_0000, b, d, f);
    MultiplierFits(p, b, d, f);
  }

  lemma NextMultiple(P: nat, b: nat, d: nat, f: nat)
    requires 0 < f < b && d * b == P - f
    ensures (P + b - 1) / b == d + 1 && (d + 1) * b == P + (b - f)
  {
    DivUnique(P + b - 1, b, d + 1);
  }

  lemma MultiplierFits(p: nat, b: nat, d: nat, f: nat)
    requires 0 < f < b && p < b < 0x1_0000_0000 && d * b == p * 0x1_0000_0000_0000_0000 - f
    ensures d + 1 < 0x1_0000_0000_0000_0000
  {
    CompareScaled(d + 1, 0x1_0000_0000_0000_0000, b);
  }

  lemma TopBit(b: nat)
    requires 0 < b < 0x1_0000_0000
    ensures var p := Pow2(Ilog2(b)); 1 <= p <= b < 2 * p && p <= 0x8000_0000
    ensures Ilog2(b) <= 31
    ensures Pow2(Ilog2(b)) == b ==> IsPowerOf2(b)
  {
    Ilog2Bounds(b);
    PowerOf2Iff(b);
    Pow2At32(); Pow2At64();
    if Ilog2(b) >= 32 { Pow2Mono(32, Ilog2(b)); }
    Pow2Mono(Ilog2(b), 31);
  }

  lemma Inexact(b: nat) returns (d: nat, f: nat)
    requires 0 < b < 0x1_0000_0000 && !IsPowerOf2(b)
    ensures d == RoundDownMultiplier(b) && 0 < f < b
    ensures d * b == Pow2(Ilog2(b)) * 0x1_0000_0000_0000_0000 - f
  {
    var P := Pow2(Ilog2(b)) * 0x1_0000_0000_0000_0000;
    d, f := P / b, P % b;
    DivSplit(P, b);
    if f == 0 {
      Pow2Add(Ilog2(b), 64);
      Pow2At32(); Pow2At64();
      DivisorOfPow2(b, Ilog2(b) + 64, d);
    }
  }

  /** Only powers of two divide a power of two. */
  lemma {:induction false} DivisorOfPow2(b: nat, k: nat, d: nat)
    requires b > 0 && d * b == Pow2(k)
    ensures IsPowerOf2(b)
    decreases k
  {
    PowerOf2Iff(b);
    if k == 0 {
      if b > 1 { UnitProduct(d, b); }
    } else if b % 2 == 0 {
      assert d * b == 2 * (d * (b / 2));
      DivisorOfPow2(b / 2, k - 1, d);
      PowerOf2Iff(b / 2);
    } else {
      OddCofactor(d, b, Pow2(k - 1));
      DivisorOfPow2(b, k - 1, d / 2);
    }
  }

  lemma UnitProduct(d: nat, b: nat)
    requires d * b == 1
    ensures b == 1
  {
    if b > 1 { if d >= 1 { MulMono(1, d, b); } }
  }

  lemma OddCofactor(d: nat, b: nat, h: nat)
    requires b % 2 == 1 && d * b == 2 * h
    ensures d / 2 * b == h
  {
    var k := b / 2;
    assert d * b == 2 * (d * k) + d;
    assert d % 2 == 0;
    assert d * b == 2 * (d / 2 * b) by { assert d == 2 * (d / 2); }
  }

  // ----- one probe decides every dividend

  /** The probed dividend is the hardest one: the rounded-up multiplier is right there
      if and only if it is right at every 64-bit dividend. */
  lemma ProbeDecides(b: nat)
    requires 0 < b < 0x1_0000_0000 && !IsPowerOf2(b)
    ensures ProbeSucceeds(b)
       <==> forall n: u64 :: QuotientRight(RoundUpMultiplier(b), Pow2(Ilog2(b)), n, b)
  {
    ProbeInRange(b);
    if ProbeSucceeds(b) {
      forall n: u64
        ensures QuotientRight(RoundUpMultiplier(b), Pow2(Ilog2(b)), n, b)
      {
        ProbedMultiplierRight(b, n);
      }
    } else {
      var x: u64 := ProbeDividend(b);
      assert !QuotientRight(RoundUpMultiplier(b), Pow2(Ilog2(b)), x, b);
    }
  }

  /** `QuotientRight` for a multiplier with excess e, as an inequality. */
  lemma RightIff(m: nat, p: nat, n: nat, b: nat, e: nat)
    requires p > 0 && b > 0 && m * b == p * 0x1_0000_0000_0000_0000 + e
    ensures QuotientRight(m, p, n, b)
       <==> e * n < (b - n % b) * (p * 0x1_0000_0000_0000_0000)
  {
    DivDiv(m * n, 0x1_0000_0000_0000_0000, p);
    RoundUpExact(n, b, p * 0x1_0000_0000_0000_0000, m, e);
  }

  lemma ProbedMultiplierRight(b: nat, n: u64)
    requires 0 < b < 0x1_0000_0000 && !IsPowerOf2(b) && ProbeSucceeds(b)
    ensures QuotientRight(RoundUpMultiplier(b), Pow2(Ilog2(b)), n, b)
  {
    var m, x := RoundUpMultiplier(b), ProbeDividend(b);
    var p, e := MultiplierErrors(b);
    ProbeInRange(b);
    RightIff(m, p, x, b, e);
    RightIff(m, p, n, b, e);
    var P, s := p * 0x1_0000_0000_0000_0000, n % b;
    if s == b - 1 {
      BelowProbe(b, n);
      MulMono(n, x, e);
    } else {
      ExcessBelowTwice(n, x, b, e, P);
      MulMono(2, b - s, P);
    }
  }

  lemma ExcessBelowTwice(n: nat, x: nat, b: nat, e: nat, P: nat)
    requires n <= x + b && e * x < P && e < b < 0x1_0000_0000 && P >= 0x1_0000_0000_0000_0000
    ensures e * n < 2 * P
  {
    MulMono(n, x + b, e);
    assert (x + b) * e == e * x + e * b;
    ProductBound(e, b, 0xffff_ffff, 0xffff_ffff);
  }

  /** No 64-bit dividend of remainder b - 1 exceeds the probe, unless b divides 2^64. */
  lemma BelowProbe(b: nat, n: u64)
    requires 0 < b < 0x1_0000_0000 && !IsPowerOf2(b) && n % b == b - 1
    ensures n <= ProbeDividend(b)
  {
    var q := n / b;
    ResidueForm(n, b, q);
    LastResidue(b, n, q);
  }

  lemma ResidueForm(n: int, b: int, q: int)
    requires b > 0 && q == n / b && n % b == b - 1
    ensures n == q * b + b - 1
  {
    DivSplit(n, b);
  }

  lemma LastResidue(b: nat, n: u64, q: nat)
    requires 0 < b < 0x1_0000_0000 && !IsPowerOf2(b) && n == q * b + b - 1
    ensures n <= ProbeDividend(b)
  {
    var k := 0xffff_ffff_ffff_ffff / b;
    DivSplit(0xffff_ffff_ffff_ffff, b);
    if (q + 1) * b == 0x1_0000_0000_0000_0000 {
      Pow2At64();
      DivisorOfPow2(b, 64, q + 1);
    }
    BelowTop(n, b, k, q);
  }

  lemma BelowTop(n: nat, b: nat, k: nat, q: nat)
    requires b > 0 && n == q * b + b - 1 && k * b <= 0xffff_ffff_ffff_ffff < k * b + b
    requires n < 0x1_0000_0000_0000_0000 && (q + 1) * b != 0x1_0000_0000_0000_0000
    ensures n <= k * b - 1
  {
    if q + 1 > k { MulMono(k + 1, q + 1, b); }
    MulMono(q + 1, k, b);
  }

  /** When the probe fails the rounded-up multiplier is off by more than p, so the
      rounded-down one is off by less than p, and the biased product is always right. */
  lemma BiasedMultiplierRight(b: nat, n: u64)
    requires 0 < b < 0x1_0000_0000 && !IsPowerOf2(b) && !ProbeSucceeds(b)
    ensures var m, p := RoundDownMultiplier(b), Pow2(Ilog2(b));
      && p * 0x1_0000_0000_0000_0000 - m * b < p
      && (m + m * n) / 0x1_0000_0000_0000_0000 / p == n / b
  {
    var m, d, x := RoundUpMultiplier(b), RoundDownMultiplier(b), ProbeDividend(b);
    var p, e := MultiplierErrors(b);
    ProbeInRange(b);
    RightIff(m, p, x, b, e);
    LargeExcess(e, x, p);
    SmallDefect(n, b - e, p);
    RoundDownExact(n, b, p * 0x1_0000_0000_0000_0000, d, b - e);
    DivDiv(d + d * n, 0x1_0000_0000_0000_0000, p);
  }

  lemma LargeExcess(e: nat, x: nat, p: nat)
    requires e * x >= p * 0x1_0000_0000_0000_0000 && x < 0x1_0000_0000_0000_0000 && p > 0
    ensures e > p
  {
    if e <= p {
      MulMono(e, p, x);
      MulMono(x, 0xffff_ffff_ffff_ffff, p);
    }
  }

  lemma SmallDefect(n: nat, f: nat, p: nat)
    requires n < 0x1_0000_0000_0000_0000 && 0 < f < p
    ensures 0 < (n + 1) * f <= p * 0x1_0000_0000_0000_0000
  {
    MulMono(n + 1, 0x1_0000_0000_0000_0000, f);
    MulMono(1, n + 1, f);
  }

  /** The special case: the odd part of b divides 2^64 - 1, so its reciprocal has a
      64-bit period and one biased product is exact. */
  lemma PeriodicMultiplierRight(k: nat, odd: nat)
    requires odd > 0 && 0xffff_ffff_ffff_ffff % odd == 0 && k < 0x1_0000_0000_0000_0000
    ensures var m := 0xffff_ffff_ffff_ffff / odd;
      (m + m * k) / 0x1_0000_0000_0000_0000 == k / odd
  {
    var m := 0xffff_ffff_ffff_ffff / odd;
    DivSplit(0xffff_ffff_ffff_ffff, odd);
    RoundDownExact(k, odd, 0x1_0000_0000_0000_0000, m, 1);
  }

  /** All three branches are in use: 3 has a periodic reciprocal, 7 needs the bias, and 11 keeps
      the rounded-up multiplier. */
  lemma BranchesInUse()
    ensures 0xffff_ffff_ffff_ffff % 3 == 0
    ensures 0xffff_ffff_ffff_ffff % 7 != 0 && !IsPowerOf2(7) && !ProbeSucceeds(7)
    ensures 0xffff_ffff_ffff_ffff % 11 != 0 && !IsPowerOf2(11) && ProbeSucceeds(11)
  {
    assert Ilog2(7) == 2 && Pow2(2) == 4;
    assert Ilog2(11) == 3 && Pow2(3) == 8;
  }

  // ----- the reduction of m / p

  /** The mask `(~(-(m & -m) | m >> 32)) << 1` of the reduction step. */
  function ReductionMask(m: u64, t: nat): u32
    requires t <= 31
  {
    SmallPow2(t);
    ShiftedComplement(U32(0x1_0000_0000_0000_0000 - Pow2(t)), m / 0x1_0000_0000)
  }

  /** `(~(bits | hi)) << 1` in 32 bits. */
  function ShiftedComplement(bits: u32, hi: u32): u32 {
    U32(2 * (0xffff_ffff - Or(bits, hi)))
  }

  /** Bit j of the mask says that a shift by j is within the trailing zeros of m and
      moves a zero into bit 31. */
  lemma MaskDigit(m: u64, t: nat, j: nat)
    requires t <= 31
    ensures Bit(ReductionMask(m, t), j) <==> 1 <= j <= t && !Bit(m, 31 + j)
  {
    var low, hi := MaskParts(m, t);
    Pow2At32();
    if j >= 32 {
      BitOfSmall(ReductionMask(m, t), 32, j);
    } else {
      DoubledBit(0xffff_ffff - Or(low, hi), j);
      if j > 0 { ComplementDigit(m, t, low, hi, j - 1); }
    }
  }

  /** A shift within the trailing zeros of m that moves a zero into bit 31. */
  predicate ShiftClears(m: u64, j: int)
    requires m > 0
  {
    1 <= j <= Tz(m) && !Bit(m, 31 + j)
  }

  lemma MaskParts(m: u64, t: nat) returns (low: nat, hi: nat)
    requires t <= 31
    ensures low == 0x1_0000_0000 - Pow2(t) && hi == m / 0x1_0000_0000
    ensures Or(low, hi) < 0x1_0000_0000
    ensures ReductionMask(m, t) == U32(2 * (0xffff_ffff - Or(low, hi)))
  {
    SmallPow2(t);
    low, hi := 0x1_0000_0000 - Pow2(t), m / 0x1_0000_0000;
    LowWord(Pow2(t));
    OrBounded32(low, hi);
  }

  lemma LowWord(v: int)
    requires 1 <= v <= 0x1_0000_0000
    ensures U32(0x1_0000_0000_0000_0000 - v) == 0x1_0000_0000 - v
  {}

  lemma OrBounded32(a: nat, b: nat)
    requires a < 0x1_0000_0000 && b < 0x1_0000_0000
    ensures Or(a, b) < 0x1_0000_0000
  {
    Pow2At32();
    OrBounded(a, b, 32);
  }

  lemma ComplementDigit(m: u64, t: nat, low: nat, hi: nat, i: nat)
    requires t <= 31 && i < 32 && low == 0x1_0000_0000 - Pow2(t) && hi == m / 0x1_0000_0000
    requires Or(low, hi) < 0x1_0000_0000
    ensures Bit(0xffff_ffff - Or(low, hi), i) <==> i < t && !Bit(m, 32 + i)
  {
    Pow2At32();
    BitOfComplement(Or(low, hi), 32, i);
    BitOr(low, hi, i);
    BitOfShr(m, 32, i);
    ShrIsDiv(m, 32);
    HighOnes(t, 32, i);
  }

  lemma DoubledBit(c: nat, j: nat)
    requires j <= 31 && c < 0x1_0000_0000
    ensures Bit(U32(2 * c), j) <==> j >= 1 && Bit(c, j - 1)
  {
    if 2 * c >= 0x1_0000_0000 {
      var d := c - 0x8000_0000;
      assert U32(2 * c) == 2 * d;
      if j >= 1 {
        Pow2At32();
        TopBitIrrelevant(d, 31, j - 1);
      }
    } else {
      assert U32(2 * c) == 2 * c;
    }
  }

  lemma {:induction false} TopBitIrrelevant(d: nat, k: nat, i: nat)
    requires d < Pow2(k) && i < k
    ensures Bit(d + Pow2(k), i) == Bit(d, i)
    decreases k
  {
    if i > 0 {
      assert (d + Pow2(k)) / 2 == d / 2 + Pow2(k - 1);
      TopBitIrrelevant(d / 2, k - 1, i - 1);
    }
  }

  lemma {:induction false} HighOnes(t: nat, k: nat, i: nat)
    requires t <= k && i < k
    ensures Pow2(k) >= Pow2(t) && (Bit(Pow2(k) - Pow2(t), i) <==> t <= i)
    decreases k
  {
    Pow2Mono(t, k);
    if t == 0 {
      ZeroBit(i);
      BitOfComplement(0, k, i);
    } else {
      assert Pow2(k) - Pow2(t) == 2 * (Pow2(k - 1) - Pow2(t - 1));
      Pow2Mono(t - 1, k - 1);
      if i > 0 { HighOnes(t - 1, k - 1, i - 1); }
    }
  }

  /** The rounded-up multiplier has no more trailing zeros than p, so both divide exactly. */
  lemma TrailingZerosBounded(b: nat)
    requires 0 < b < 0x1_0000_0000 && !IsPowerOf2(b)
    ensures RoundUpMultiplier(b) > 0
    ensures Tz(RoundUpMultiplier(b)) <= Ilog2(b) <= 31
  {
    var p, e := MultiplierErrors(b);
    TopBit(b);
    TzWithin(RoundUpMultiplier(b), b, Ilog2(b), e);
  }

  lemma TzWithin(m: nat, b: nat, l: nat, e: nat)
    requires m * b == Pow2(l) * 0x1_0000_0000_0000_0000 + e && 0 < e < 2 * Pow2(l)
    ensures m > 0 && Tz(m) <= l
  {
    var t := Tz(m);
    if t > l {
      var a := TzFactor(m);
      Pow2Add(l + 1, t - l - 1);
      CommonFactor(m, b, Pow2(l), e, Pow2(l + 1), a, Pow2(t), Pow2(t - l - 1));
    }
  }

  /** A factor of m and of 2p * 2^63 is a factor of the error between them. */
  lemma CommonFactor(m: nat, b: nat, p: nat, e: nat, u: nat, a: nat, v: nat, w: nat)
    requires m == a * v && v == u * w && u == 2 * p
    requires m * b == p * 0x1_0000_0000_0000_0000 + e
    ensures e == 0 || e >= u
  {
    var c := a * w * b - 0x8000_0000_0000_0000;
    assert m * b == (a * w * b) * u;
    assert e == c * u;
    if c <= 0 { MulMono(c, 0, u); } else { MulMono(1, c, u); }
  }

  lemma ExactDivision(m: nat, l: nat, k: nat) returns (m': nat, p': nat)
    requires m > 0 && k <= Tz(m) <= l
    ensures m == m' * Pow2(k) && Pow2(l) == p' * Pow2(k) && p' > 0
    ensures m / Pow2(k) == m' && Pow2(l) / Pow2(k) == p'
  {
    var t := Tz(m);
    var a := TzFactor(m);
    Pow2Add(l - k, k);
    Pow2Add(t - k, k);
    m', p' := a * Pow2(t - k), Pow2(l - k);
    Associate(a, Pow2(t - k), Pow2(k));
    MultipleMod(p', Pow2(k));
    MultipleMod(m', Pow2(k));
  }

  lemma Associate(a: int, b: int, c: int)
    ensures a * (b * c) == (a * b) * c
  {}

  /** Dividing m and p by the same power of two leaves every quotient alone. */
  lemma ReducedQuotient(m: nat, p: nat, d: nat, n: nat, b: nat)
    requires d > 0 && p > 0 && b > 0
    requires QuotientRight(m * d, p * d, n, b)
    ensures QuotientRight(m, p, n, b)
  {
    DivDiv(m * n, 0x1_0000_0000_0000_0000, p);
    DivDiv(m * d * n, 0x1_0000_0000_0000_0000, p * d);
    FactorOut(m, p, d, n);
    CancelFactor(m * n, 0x1_0000_0000_0000_0000 * p, d);
  }

  lemma FactorOut(m: nat, p: nat, d: nat, n: nat)
    ensures (m * d) * n == d * (m * n)
    ensures 0x1_0000_0000_0000_0000 * (p * d) == d * (0x1_0000_0000_0000_0000 * p)
  {}

  // ----- __arch_xprod_64

  /** Bits 63 and 31 of m are clear, so no cross product can overflow. */
  predicate HalvesClear(m: nat) {
    m < 0x8000_0000_0000_0000 && m % 0x1_0000_0000 < 0x8000_0000
  }

  lemma HalvesClearIff(m: u64)
    ensures HalvesClear(m) <==> !Bit(m, 63) && !Bit(m, 31)
  {
    Pow2At32(); Pow2At64();
    BitIsParity(m, 63, 0x8000_0000_0000_0000);
    BitIsParity(m, 31, 0x8000_0000);
    HalfParities(m);
  }

  lemma BitIsParity(m: nat, k: nat, unit: nat)
    requires unit == Pow2(k)
    ensures Bit(m, k) == (m / unit % 2 == 1)
  {
    BitIsShrParity(m, k);
    ShrIsDiv(m, k);
  }

  lemma HalfParities(m: u64)
    ensures m < 0x8000_0000_0000_0000 <==> m / 0x8000_0000_0000_0000 % 2 == 0
    ensures m % 0x1_0000_0000 < 0x8000_0000 <==> m / 0x8000_0000 % 2 == 0
  {}

  lemma OverflowDigit(m: u64, i: nat)
    ensures Bit(And(m, Or(Pow2(63), Pow2(31))), i) == (Bit(m, i) && (i == 63 || i == 31))
  {
    BitAnd(m, Or(Pow2(63), Pow2(31)), i);
    BitOfOrPow2(Pow2(63), 31, i);
    BitOfPow2(63, i);
  }

  /** `m & ((1ULL << 63) | (1ULL << 31))`, as a truth value. */
  method TestOverflowBits(m: u64) returns (overflow: bool)
    ensures overflow <==> !HalvesClear(m)
  {
    HalvesClearIff(m);
    if HalvesClear(m) { NoOverflowDigit(m); } else { SomeOverflowDigit(m); }
    overflow := And(m, Or(Pow2(63), Pow2(31))) != 0;
  }

  lemma SomeOverflowDigit(m: u64)
    requires Bit(m, 63) || Bit(m, 31)
    ensures And(m, Or(Pow2(63), Pow2(31))) != 0
  {
    var i := if Bit(m, 63) then 63 else 31;
    OverflowDigit(m, i);
    ZeroBit(i);
  }

  lemma NoOverflowDigit(m: u64)
    requires !Bit(m, 63) && !Bit(m, 31)
    ensures And(m, Or(Pow2(63), Pow2(31))) == 0
  {
    var mask := Or(Pow2(63), Pow2(31));
    Pow2At32(); Pow2At64();
    AndBounded(m, mask, 64);
    forall i: nat | i < 64
      ensures Bit(And(m, mask), i) == Bit(0, i)
    {
      OverflowDigit(m, i);
      ZeroBit(i);
    }
    SameBits(And(m, mask), 0, 64);
  }

  lemma Distribute(ml: int, mh: int, nl: int, nh: int)
    ensures (ml + 0x1_0000_0000 * mh) * (nl + 0x1_0000_0000 * nh)
         == ml * nl + 0x1_0000_0000 * (ml * nh + mh * nl) + 0x1_0000_0000_0000_0000 * (mh * nh)
  {}

  /** `lo | (carry << 32)` */
  lemma JoinCarry(lo: u32, carry: nat)
    ensures Or(lo, carry * 0x1_0000_0000) == lo + carry * 0x1_0000_0000
  {
    Pow2At32(); Pow2At64();
    OrDisjoint(lo, carry, 32);
  }

  /** A 64-bit sum that may wrap once, shifted right by 32 with its carry recovered by
      comparing the truncated upper halves. */
  method AddKeepCarry(a: u64, y: u64) returns (r: u64)
    requires y <= 0xffff_fffe_0000_0001
    ensures r == (a + y) / 0x1_0000_0000
  {
    var resLo: u32 := U64(a + y) / 0x1_0000_0000;
    var resHi := if resLo < a / 0x1_0000_0000 then 1 else 0;
    CarryRecovered(a, y);
    JoinCarry(resLo, resHi);
    r := Or(resLo, resHi * 0x1_0000_0000);
  }

  lemma CarryRecovered(a: u64, y: u64)
    requires y <= 0xffff_fffe_0000_0001
    ensures var resLo := U64(a + y) / 0x1_0000_0000;
      (a + y) / 0x1_0000_0000 == resLo + (if resLo < a / 0x1_0000_0000 then 0x1_0000_0000 else 0)
  {
    if a + y < 0x1_0000_0000_0000_0000 {
      assert U64(a + y) == a + y;
    } else {
      assert U64(a + y) == a + y - 0x1_0000_0000_0000_0000;
    }
  }

  /** `(uint64_t)a * b` on 32-bit operands. */
  method Mul32(a: u32, b: u32) returns (r: u64)
    ensures r == a * b && r <= 0xffff_fffe_0000_0001
    ensures a <= 0x7fff_ffff ==> r <= 0x7fff_fffe_8000_0001
  {
    ProductBound(a, b, 0xffff_ffff, 0xffff_ffff);
    if a <= 0x7fff_ffff { ProductBound(a, b, 0x7fff_ffff, 0xffff_ffff); }
    r := a * b;
  }

  /** Bounds on the partial products of `m` and any multiplicand. */
  predicate Partials(m: u64, ll: u64, lh: u64, hl: u64) {
    && ll <= 0xffff_fffe_0000_0001 && lh <= 0xffff_fffe_0000_0001 && hl <= 0xffff_fffe_0000_0001
    && (HalvesClear(m) ==>
          ll <= 0x7fff_fffe_8000_0001 && lh <= 0x7fff_fffe_8000_0001 && hl <= 0x7fff_fffe_8000_0001)
  }

  /** The carry arithmetic of `__arch_xprod_64`, on given partial products: every carry is
      recovered by comparing truncated upper halves, and no other sum overflows. */
  method SumPartials(m: u64, ll: u64, lh: u64, hl: u64, hh: u64, bias: bool) returns (res: u64)
    requires Partials(m, ll, lh, hl)
    requires Combined(if bias then m else 0, ll, lh + hl, hh) < 0x1_0000_0000_0000_0000
    ensures res == Combined(if bias then m else 0, ll, lh + hl, hh)
  {
    res := LowSum(m, ll, bias);
    res := MidSum(m, res, lh, hl);
    res := U64(res + hh);
  }

  /** The second stage: both cross products added, upper half kept. */
  method MidSum(m: u64, low: u64, lh: u64, hl: u64) returns (res: u64)
    requires Partials(m, 0, lh, hl)
    requires low <= 0x1_ffff_fffe && (HalvesClear(m) ==> low <= 0xffff_ffff)
    ensures res == (low + (lh + hl)) / 0x1_0000_0000
  {
    var overflow := TestOverflowBits(m);
    res := U64(low + lh);
    assert res == low + lh;
    if !overflow {
      res := U64(res + hl);
      res := res / 0x1_0000_0000;
    } else {
      res := AddKeepCarry(res, hl);
    }
  }

  /** The first stage: the upper half of `m_lo * n_lo`, with the bias added. */
  method LowSum(m: u64, ll: u64, bias: bool) returns (res: u64)
    requires ll <= 0xffff_fffe_0000_0001
    requires HalvesClear(m) ==> ll <= 0x7fff_fffe_8000_0001
    ensures res == ((if bias then m else 0) + ll) / 0x1_0000_0000
    ensures HalvesClear(m) ==> res <= 0xffff_ffff
    ensures res <= 0x1_ffff_fffe
  {
    var overflow := TestOverflowBits(m);
    if !bias {
      res := ll / 0x1_0000_0000;
    } else if !overflow {
      res := U64(m + ll) / 0x1_0000_0000;
    } else {
      res := AddKeepCarry(m, ll);
    }
  }

  /** The upper half of `c + ll + mid * 2^32 + hh * 2^64`. */
  function Combined(c: int, ll: int, mid: int, hh: int): int {
    ((c + ll) / 0x1_0000_0000 + mid) / 0x1_0000_0000 + hh
  }

  /** The high half of a 64x64 product, with an optional bias of one extra `m`. */
  method XProd64(m: u64, n: u64, bias: bool) returns (res: u64)
    ensures res == ((if bias then m else 0) + m * n) / 0x1_0000_0000_0000_0000
  {
    var mLo: u32, mHi: u32 := m % 0x1_0000_0000, m / 0x1_0000_0000;
    var nLo: u32, nHi: u32 := n % 0x1_0000_0000, n / 0x1_0000_0000;
    var ll := Mul32(mLo, nLo);
    var lh := Mul32(mLo, nHi);
    var hl := Mul32(mHi, nLo);
    var hh := Mul32(mHi, nHi);
    CombinedProduct(m, n, if bias then m else 0, mLo, mHi, nLo, nHi, ll, lh, hl, hh);
    res := SumPartials(m, ll, lh, hl, hh, bias);
  }

  lemma CombinedProduct(m: int, n: int, c: int, mLo: int, mHi: int, nLo: int, nHi: int,
                        ll: int, lh: int, hl: int, hh: int)
    requires 0 <= c <= m < 0x1_0000_0000_0000_0000 && 0 <= n < 0x1_0000_0000_0000_0000
    requires m == mLo + 0x1_0000_0000 * mHi && n == nLo + 0x1_0000_0000 * nHi
    requires ll == mLo * nLo && lh == mLo * nHi && hl == mHi * nLo && hh == mHi * nHi
    ensures Combined(c, ll, lh + hl, hh) == (c + m * n) / 0x1_0000_0000_0000_0000
    ensures Combined(c, ll, lh + hl, hh) < 0x1_0000_0000_0000_0000
  {
    Distribute(mLo, mHi, nLo, nHi);
    HighHalf(c, ll, lh + hl, hh, m * n);
    HighHalfFits(m, n, c);
  }

  lemma HighHalf(c: int, ll: int, mid: int, hh: int, product: int)
    requires product == ll + 0x1_0000_0000 * mid + 0x1_0000_0000_0000_0000 * hh
    ensures Combined(c, ll, mid, hh) == (c + product) / 0x1_0000_0000_0000_0000
  {}

  lemma HighHalfFits(m: int, n: int, c: int)
    requires 0 <= c <= m < 0x1_0000_0000_0000_0000 && 0 <= n < 0x1_0000_0000_0000_0000
    ensures (c + m * n) / 0x1_0000_0000_0000_0000 < 0x1_0000_0000_0000_0000
  {
    ProductBound(m, n, 0xffff_ffff_ffff_ffff, 0xffff_ffff_ffff_ffff);
  }

  // ----- __div64_const32

  /** The carry arithmetic of the probe, on given partial products. */
  method SumProbePartials(ll: u64, lh: u64, hl: u64, hh: u64) returns (res: u64)
    requires ll <= 0xffff_fffe_0000_0001 && lh <= 0xffff_fffe_0000_0001 && hl <= 0xffff_fffe_0000_0001
    requires Combined(0, ll, lh + hl, hh) < 0x1_0000_0000_0000_0000
    ensures res == Combined(0, ll, lh + hl, hh)
  {
    res := ll / 0x1_0000_0000;
    res := U64(res + lh);
    assert res == ll / 0x1_0000_0000 + lh;
    var t: u64 := res;
    res := AddProbeCarry(t, hl);
    res := U64(res + hh);
  }

  /** The carry of the probe's second sum: the sum is below its first term if it wrapped. */
  method AddProbeCarry(t: u64, hl: u64) returns (res: u64)
    ensures res == (t + hl) / 0x1_0000_0000
  {
    WrapRecovered(t, hl);
    res := U64(t + hl);
    var carry: u64 := if res < t then 0x1_0000_0000 else 0;
    res := U64(res / 0x1_0000_0000 + carry);
  }

  /** A sum below its first term has wrapped. */
  lemma WrapRecovered(a: u64, y: u64)
    ensures (a + y) / 0x1_0000_0000
         == U64(a + y) / 0x1_0000_0000 + (if U64(a + y) < a then 0x1_0000_0000 else 0)
  {
    if a + y < 0x1_0000_0000_0000_0000 {
      assert U64(a + y) == a + y;
    } else {
      assert U64(a + y) == a + y - 0x1_0000_0000_0000_0000;
    }
  }

  /** The probe's own product, `m * x >> 64`. */
  method ProbeProduct(m: u64, x: u64) returns (res: u64)
    ensures res == m * x / 0x1_0000_0000_0000_0000
  {
    var mLo: u32, mHi: u32 := m % 0x1_0000_0000, m / 0x1_0000_0000;
    var xLo: u32, xHi: u32 := x % 0x1_0000_0000, x / 0x1_0000_0000;
    var ll := Mul32(mLo, xLo);
    var lh := Mul32(mLo, xHi);
    var hl := Mul32(mHi, xLo);
    var hh := Mul32(mHi, xHi);
    CombinedProduct(m, x, 0, mLo, mHi, xLo, xHi, ll, lh, hl, hh);
    res := SumProbePartials(ll, lh, hl, hh);
  }

  /** The two statements that compute a multiplier, with every 64-bit truncation:
      `m = (~0ULL / b) * p; m += ((~0ULL % b + 1) * p + round) / b`. Neither overflows
      nor loses a bit. */
  method ComputeMultiplier(b: u32, p: u32, round: u32) returns (m: u64)
    requires b > 0 && round < b && p == Pow2(Ilog2(b))
    ensures !IsPowerOf2(b) ==> m == (p * 0x1_0000_0000_0000_0000 + round) / b
  {
    var q, r := 0xffff_ffff_ffff_ffff / b, 0xffff_ffff_ffff_ffff % b + 1;
    if !IsPowerOf2(b) { MultiplierParts(b, p, round, q, r); }
    m := WrappedProduct(q, p);
    var t := TrailingTerm(r, p, round, b);
    m := U64(m + t);
  }

  /** A 64-by-32 product truncated to 64 bits. */
  method WrappedProduct(q: u64, p: u32) returns (m: u64)
    ensures 0 <= q * p < 0x1_0000_0000_0000_0000 ==> m == q * p
  {
    m := U64(q * p);
  }

  /** `((~0ULL % b + 1) * p + round) / b` */
  method TrailingTerm(r: u64, p: u32, round: u32, b: u32) returns (t: u64)
    requires b > 0
    ensures 0 <= r * p && r * p + round < 0x1_0000_0000_0000_0000 ==> t == (r * p + round) / b
  {
    t := WrappedProduct(r, p);
    t := U64(t + round);
    t := Quotient(t, b);
  }

  /** The C division of a 64-bit word by a 32-bit one. */
  method Quotient(x: u64, d: u32) returns (q: u64)
    requires d > 0
    ensures q == x / d
  {
    QuotientMono(0, x, d);
    DivSplit(x, d);
    MulMono(1, d, x / d);
    q := x / d;
  }

  lemma MultiplierParts(b: u32, p: u32, round: u32, q: nat, r: nat)
    requires b > 0 && round < b && p == Pow2(Ilog2(b)) && !IsPowerOf2(b)
    requires q == 0xffff_ffff_ffff_ffff / b && r == 0xffff_ffff_ffff_ffff % b + 1
    ensures 0 <= q * p < 0x1_0000_0000_0000_0000
    ensures 0 <= r * p && r * p + round < 0x1_0000_0000_0000_0000
    ensures q * p + (r * p + round) / b == (p * 0x1_0000_0000_0000_0000 + round) / b
    ensures (p * 0x1_0000_0000_0000_0000 + round) / b < 0x1_0000_0000_0000_0000
  {
    TopBit(b);
    DivSplit(0xffff_ffff_ffff_ffff, b);
    SplitNumerator(b, p, round, q, r);
    MultiplierBelow(b, p, round);
  }

  lemma MultiplierBelow(b: u32, p: u32, round: u32)
    requires b > 0 && round < b && p == Pow2(Ilog2(b)) && !IsPowerOf2(b)
    ensures (p * 0x1_0000_0000_0000_0000 + round) / b < 0x1_0000_0000_0000_0000
  {
    var p', e := MultiplierErrors(b);
    QuotientMono(p * 0x1_0000_0000_0000_0000 + round, p * 0x1_0000_0000_0000_0000 + b - 1, b);
  }

  lemma QuotientMono(x: nat, y: nat, d: nat)
    requires x <= y && d > 0
    ensures x / d <= y / d
  {
    DivSplit(x, d);
    DivSplit(y, d);
    if y / d < x / d { MulMono(y / d + 1, x / d, d); }
  }

  lemma SplitNumerator(b: nat, p: nat, round: nat, q: nat, r: nat)
    requires 0 < b < 0x1_0000_0000 && p <= b && p <= 0x8000_0000 && round < b && r <= b
    requires q * b + r == 0x1_0000_0000_0000_0000 && r > 0
    ensures 0 <= q * p < 0x1_0000_0000_0000_0000
    ensures 0 <= r * p && r * p + round < 0x1_0000_0000_0000_0000
    ensures q * p + (r * p + round) / b == (p * 0x1_0000_0000_0000_0000 + round) / b
  {
    MulMono(p, b, q);
    ProductBound(r, p, 0xffff_ffff, 0x8000_0000);
    assert p * (q * b + r) == (q * p) * b + r * p;
    AddMultiple(q * p, b, r * p + round);
  }

  lemma AddMultiple(a: nat, b: nat, y: nat)
    requires b > 0
    ensures a + y / b == (a * b + y) / b
  {
    DivSplit(y, b);
    assert (a + y / b) * b == a * b + y / b * b;
    DivUnique(a * b + y, b, a + y / b);
  }

  /** `b & -b`, and the odd part `b / (b & -b)` of the divisor. */
  lemma OddPart(b: u32) returns (odd: nat)
    requires b > 0
    ensures And(b, 0x1_0000_0000 - b) == Pow2(Tz(b)) <= b
    ensures b == odd * Pow2(Tz(b)) && b / Pow2(Tz(b)) == odd && odd >= 1
    ensures IsPowerOf2(b) ==> odd == 1
  {
    LowestBit32(b);
    odd := TzFactor(b);
    MultipleMod(odd, Pow2(Tz(b)));
    MulMono(1, odd, Pow2(Tz(b)));
    if IsPowerOf2(b) { PowerOf2OddPart(b, odd); }
  }

  lemma LowestBit32(b: u32)
    requires b > 0
    ensures And(b, 0x1_0000_0000 - b) == Pow2(Tz(b))
  {
    Pow2At32();
    LowestSetBit(b, 32);
  }

  lemma PowerOf2OddPart(b: nat, odd: nat)
    requires IsPowerOf2(b) && b == odd * Pow2(Tz(b))
    ensures odd == 1
  {
    PowerOf2Iff(b);
    TzOfPow2(Ilog2(b));
    MultipleMod(odd, b);
    MultipleMod(1, b);
  }

  lemma {:induction false} TzOfPow2(k: nat)
    ensures Tz(Pow2(k)) == k
  {
    if k > 0 { TzOfPow2(k - 1); }
  }

  /** The reduction: m and p are divided exactly by one power of two, p stays
      positive, every quotient that was right stays right, and either the reduction was
      the largest possible or the result has bits 31 and 63 clear. */
  method Reduce(b: u32, m: u64, p: u32) returns (m': u64, p': u32, ghost k: nat)
    requires b > 0 && !IsPowerOf2(b)
    requires p == Pow2(Ilog2(b)) && m == RoundUpMultiplier(b)
    ensures m == m' * Pow2(k) && p == p' * Pow2(k) && p' > 0
    ensures forall n: nat :: QuotientRight(m, p, n, b) ==> QuotientRight(m', p', n, b)
    ensures if exists j :: ShiftClears(m, j) then HalvesClear(m') else m' % 2 == 1
  {
    TrailingZerosBounded(b);
    var shift;
    shift, k := ChooseShift(m);
    ghost var m1, p1 := ExactDivision(m, Ilog2(b), k);
    ShrIsDiv(m, k);
    MulMono(1, Pow2(k), m1);
    MulMono(1, Pow2(k), p1);
    p' := p / shift;
    m' := m / shift;
    if k == Tz(m) { OddQuotient(m, m'); }
    forall n: nat | QuotientRight(m, p, n, b)
      ensures QuotientRight(m', p', n, b)
    {
      ReducedQuotient(m', p', Pow2(k), n, b);
    }
  }

  lemma OddQuotient(m: nat, m': nat)
    requires m > 0 && m == m' * Pow2(Tz(m))
    ensures m' % 2 == 1
  {
    var a := TzFactor(m);
    MultipleMod(a, Pow2(Tz(m)));
    MultipleMod(m', Pow2(Tz(m)));
  }

  /** The power of two to divide by: the largest that clears bit 31, if any does. */
  method ChooseShift(m: u64) returns (shift: nat, ghost k: nat)
    requires m > 0 && Tz(m) <= 31
    ensures shift == Pow2(k)
    ensures k <= Tz(m)
    ensures if exists j :: ShiftClears(m, j) then HalvesClear(Shr(m, k)) else k == Tz(m)
  {
    var low, bits := ReductionBits(m);
    if bits == 0 {
      NoShiftClears(m);
      k := Tz(m);
      shift := low;
    } else {
      k := Ilog2(bits);
      TopDigitClears(m, bits);
      ShiftedClear(m, k);
      shift := Pow2(Ilog2(bits));
    }
  }

  /** `m & -m`, and the mask computed from it. */
  method ReductionBits(m: u64) returns (low: u64, bits: u32)
    requires m > 0 && Tz(m) <= 31
    ensures low == Pow2(Tz(m)) && bits == ReductionMask(m, Tz(m))
  {
    LowestBit64(m);
    Negated64(m);
    SmallPow2(Tz(m));
    low := And(m, U64(0x1_0000_0000_0000_0000 - m));
    Negated64(low);
    bits := U32(U64(0x1_0000_0000_0000_0000 - low));
    bits := ShiftedComplement(bits, m / 0x1_0000_0000);
  }

  lemma NoShiftClears(m: u64)
    requires m > 0 && Tz(m) <= 31 && ReductionMask(m, Tz(m)) == 0
    ensures forall j :: !ShiftClears(m, j)
  {
    forall j
      ensures !ShiftClears(m, j)
    {
      if j >= 1 {
        MaskDigit(m, Tz(m), j);
        ZeroBit(j);
      }
    }
  }

  lemma TopDigitClears(m: u64, bits: u32)
    requires m > 0 && Tz(m) <= 31 && bits == ReductionMask(m, Tz(m)) != 0
    ensures ShiftClears(m, Ilog2(bits))
  {
    Ilog2Bounds(bits);
    MaskDigit(m, Tz(m), Ilog2(bits));
  }

  lemma LowestBit64(m: u64)
    requires m > 0
    ensures And(m, 0x1_0000_0000_0000_0000 - m) == Pow2(Tz(m))
  {
    Pow2At64();
    LowestSetBit(m, 64);
  }

  lemma SmallPow2(t: nat)
    requires t <= 31
    ensures Pow2(t) <= 0x8000_0000
  {
    Pow2At32();
    Pow2Mono(t, 31);
  }

  lemma Negated64(m: int)
    requires 0 < m < 0x1_0000_0000_0000_0000
    ensures U64(0x1_0000_0000_0000_0000 - m) == 0x1_0000_0000_0000_0000 - m
  {}

  lemma ShiftedClear(m: u64, k: nat)
    requires k >= 1 && !Bit(m, 31 + k)
    ensures 0 <= Shr(m, k) < 0x1_0000_0000_0000_0000 && HalvesClear(Shr(m, k))
  {
    ShrBelow(m, k);
    BitOfShr(m, k, 31);
    BitOfShr(m, k, 63);
    Pow2At64();
    BitOfSmall(m, 64, 63 + k);
    HalvesClearIff(Shr(m, k));
  }

  lemma {:induction false} ShrBelow(x: nat, k: nat)
    ensures Shr(x, k) <= x
    decreases k
  {
    if k > 0 { ShrBelow(x / 2, k - 1); }
  }

  /** `__div64_const32`: for every non-zero divisor and every dividend, the quotient. */
  method ReciprocalDivide(n: u64, b: u32) returns (res: u64)
    requires b != 0
    ensures res == n / b
  {
    TopBit(b);
    var p: u32 := Pow2(Ilog2(b));
    var m: u64 := ComputeMultiplier(b, p, b - 1);
    var probed := Probe(b, p, m);

    var low, odd := SplitDivisor(b);
    if 0xffff_ffff_ffff_ffff % odd == 0 {
      res := DividePeriodic(n, b, low, odd);
    } else if !probed {
      res := DivideBiased(n, b, p);
    } else {
      res := DivideProbed(n, b, p, m);
    }
  }

  /** The branch with a bias: `m = (p << 64) / b` and `n / b = (n * m + m) / p`. */
  method DivideBiased(n: u64, b: u32, p: u32) returns (res: u64)
    requires b > 0 && !IsPowerOf2(b) && p == Pow2(Ilog2(b)) && !ProbeSucceeds(b)
    ensures res == n / b
  {
    BiasedMultiplierRight(b, n);
    var m := ComputeMultiplier(b, p, 0);
    res := XProd64(m, n, true);
    res := Quotient(res, p);
  }

  /** The branch that keeps the rounded-up multiplier, reduced. */
  method DivideProbed(n: u64, b: u32, p: u32, m: u64) returns (res: u64)
    requires b > 0 && !IsPowerOf2(b) && p == Pow2(Ilog2(b)) && ProbeSucceeds(b)
    requires m == RoundUpMultiplier(b)
    ensures res == n / b
  {
    ProbedMultiplierRight(b, n);
    var m', p', _ := Reduce(b, m, p);
    res := XProd64(m', n, false);
    res := Quotient(res, p');
  }

  /** The multiplier tried at the probed dividend. */
  method Probe(b: u32, p: u32, m: u64) returns (right: bool)
    requires b > 0 && p == Pow2(Ilog2(b))
    ensures m == RoundUpMultiplier(b) ==> right == ProbeSucceeds(b)
  {
    ProbeInRange(b);
    var x: u64 := 0xffff_ffff_ffff_ffff / b * b - 1;
    var res := ProbeProduct(m, x);
    res := Quotient(res, p);
    right := res == x / b;
  }

  /** `b & -b` and `b / (b & -b)`. */
  method SplitDivisor(b: u32) returns (low: u32, odd: u32)
    requires b > 0
    ensures low >= 1 && odd >= 1 && b == low * odd
    ensures IsPowerOf2(b) ==> odd == 1
  {
    ghost var h := OddPart(b);
    assert U32(0x1_0000_0000 - b) == 0x1_0000_0000 - b;
    low := And(b, U32(0x1_0000_0000 - b));
    MulMono(1, low, h);
    odd := b / low;
  }

  /** The branch for divisors whose odd part divides 2^64 - 1. */
  method DividePeriodic(n: u64, b: u32, low: u32, odd: u32) returns (res: u64)
    requires low > 0 && odd > 0 && b == low * odd && b > 0 && 0xffff_ffff_ffff_ffff % odd == 0
    ensures res == n / b
  {
    DivDiv(n, low, odd);
    var k := Quotient(n, low);
    var m := Quotient(0xffff_ffff_ffff_ffff, odd);
    PeriodicMultiplierRight(k, odd);
    res := XProd64(m, k, true);
  }

  // ----- do_div

  /** `do_div` with a compile-time divisor, or with a dividend that fits 32 bits:
      the quotient, and the remainder rebuilt from the low halves alone. */
  method DoDiv(n: u64, base: u32, constant: bool) returns (n': u64, rem: u32)
    requires base != 0
    requires constant || n < 0x1_0000_0000
    ensures n' == n / base && rem == n % base
  {
    if constant && IsPowerOf2(base) {
      n', rem := DivideByPowerOf2(n, base);
    } else if constant {
      n' := ReciprocalDivide(n, base);
      rem := LowRemainder(n, n', base);
    } else {
      n', rem := n / base, n % base;
    }
  }

  method DivideByPowerOf2(n: u64, base: u32) returns (n': u64, rem: u32)
    requires IsPowerOf2(base)
    ensures n' == n / base && rem == n % base
  {
    MaskIsRemainder(n, base);
    rem := And(n, base - 1);
    n' := Quotient(n, Pow2(Ilog2(base)));
  }

  lemma MaskIsRemainder(n: u64, base: u32)
    requires IsPowerOf2(base)
    ensures And(n, base - 1) == n % base && Pow2(Ilog2(base)) == base
  {
    PowerOf2Iff(base);
    AndLowMask(n, Ilog2(base));
  }

  /** `__rem = __n_lo - __res_lo * __base`, all in 32-bit registers. */
  method LowRemainder(n: u64, q: u64, b: u32) returns (rem: u32)
    requires b > 0 && q == n / b
    ensures rem == n % b
  {
    DivSplit(n, b);
    LowHalves(n, q, b, n % b);
    rem := U32(U32(n) - U32(U32(q) * b));
  }

  lemma LowHalves(n: nat, q: nat, b: nat, r: nat)
    requires n == q * b + r && r < b < 0x1_0000_0000
    ensures U32(U32(n) - U32(U32(q) * b)) == r
  {
    var k, l := q / 0x1_0000_0000, U32(q);
    assert q * b == (k * b) * 0x1_0000_0000 + l * b by {
      assert q == k * 0x1_0000_0000 + l;
    }
    LowDifference(n, k * b, l * b, r);
  }

  lemma LowDifference(n: int, k: int, z: int, r: int)
    requires n == k * 0x1_0000_0000 + z + r && 0 <= r < 0x1_0000_0000
    ensures U32(U32(n) - U32(z)) == r
  {}
}

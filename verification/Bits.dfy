/** Machine words as bounded integers, and the C bit operators on them.

    Words are plain integers kept in range by `U16`, `U32` and `U64`, so that every
    wrap-around of the modelled code is written out. `And`, `Or` and `Bit` are the
    ordinary binary-digit definitions; the lemmas relate them to arithmetic.
 */
module Bits {
  import opened Arith


  type u8 = x: int | 0 <= x < 0x100
  type u16 = x: int | 0 <= x < 0x1_0000
  type u32 = x: int | 0 <= x < 0x1_0000_0000
  type u64 = x: int | 0 <= x < 0x1_0000_0000_0000_0000

  function U16(x: int): u16 { x % 0x1_0000 }
  function U32(x: int): u32 { x % 0x1_0000_0000 }
  function U64(x: int): u64 { x % 0x1_0000_0000_0000_0000 }

  /** The value of an unsigned 32-bit word read as `int32_t`. */
  function S32(x: u32): int { if x < 0x8000_0000 then x else x - 0x1_0000_0000 }

  function Pow2(k: nat): (r: nat)
    ensures r >= 1
  {
    if k == 0 then 1 else 2 * Pow2(k - 1)
  }

  /** Binary digit `i` of `x`. */
  predicate Bit(x: nat, i: nat)
    decreases i
  {
    if i == 0 then x % 2 == 1 else Bit(x / 2, i - 1)
  }

  /** `x >> k` */
  function Shr(x: nat, k: nat): nat
    decreases k
  {
    if k == 0 then x else Shr(x / 2, k - 1)
  }

  function And(a: nat, b: nat): nat {
    if a == 0 || b == 0 then 0
    else (if a % 2 == 1 && b % 2 == 1 then 1 else 0) + 2 * And(a / 2, b / 2)
  }

  function Or(a: nat, b: nat): nat {
    if a == 0 then b
    else if b == 0 then a
    else (if a % 2 == 1 || b % 2 == 1 then 1 else 0) + 2 * Or(a / 2, b / 2)
  }

  function Xor(a: nat, b: nat): nat {
    if a == 0 then b
    else if b == 0 then a
    else (if a % 2 != b % 2 then 1 else 0) + 2 * Xor(a / 2, b / 2)
  }

  /** `ilog2`: the index of the most significant set bit. */
  function Ilog2(x: nat): nat {
    if x < 2 then 0 else 1 + Ilog2(x / 2)
  }

  /** The number of trailing zero digits. */
  function Tz(x: nat): nat
    requires x > 0
  {
    if x % 2 == 1 then 0 else 1 + Tz(x / 2)
  }

  /** `is_power_of_2` of include/linux/log2.h. */
  predicate IsPowerOf2(n: nat) { n != 0 && And(n, n - 1) == 0 }

  // ----- digits of the operators

  lemma {:induction false} ZeroBit(i: nat)
    ensures !Bit(0, i)
  {
    if i > 0 { ZeroBit(i - 1); }
  }

  lemma {:induction false} BitAnd(a: nat, b: nat, i: nat)
    ensures Bit(And(a, b), i) == (Bit(a, i) && Bit(b, i))
    decreases i
  {
    if a == 0 || b == 0 {
      ZeroBit(i);
    } else if i > 0 {
      BitAnd(a / 2, b / 2, i - 1);
    }
  }

  lemma {:induction false} BitOr(a: nat, b: nat, i: nat)
    ensures Bit(Or(a, b), i) == (Bit(a, i) || Bit(b, i))
    decreases i
  {
    if a == 0 || b == 0 {
      ZeroBit(i);
    } else if i > 0 {
      BitOr(a / 2, b / 2, i - 1);
    }
  }

  lemma {:induction false} BitXor(a: nat, b: nat, i: nat)
    ensures Bit(Xor(a, b), i) == (Bit(a, i) != Bit(b, i))
  {
    ZeroBit(i);
    if a > 0 && b > 0 {
      HalfOf(Xor(a, b), Xor(a / 2, b / 2), if a % 2 != b % 2 then 1 else 0);
      if i > 0 { BitXor(a / 2, b / 2, i - 1); }
    }
  }

  lemma {:induction false} BitOfShr(x: nat, k: nat, i: nat)
    ensures Bit(Shr(x, k), i) == Bit(x, k + i)
    decreases k
  {
    if k > 0 { BitOfShr(x / 2, k - 1, i); }
  }

  lemma {:induction false} BitIsShrParity(x: nat, i: nat)
    ensures Bit(x, i) == (Shr(x, i) % 2 == 1)
    decreases i
  {
    if i > 0 { BitIsShrParity(x / 2, i - 1); }
  }

  lemma {:induction false} ShrIsDiv(x: nat, k: nat)
    ensures Shr(x, k) == x / Pow2(k)
    decreases k
  {
    if k > 0 {
      ShrIsDiv(x / 2, k - 1);
      DivDiv(x, 2, Pow2(k - 1));
    }
  }

  lemma {:induction false} BitOfSmall(x: nat, k: nat, i: nat)
    requires x < Pow2(k) && k <= i
    ensures !Bit(x, i)
    decreases k
  {
    if k == 0 {
      ZeroBit(i);
    } else {
      BitOfSmall(x / 2, k - 1, i - 1);
    }
  }

  /** A number below 2^k is determined by its first k digits. */
  lemma {:induction false} SameBits(a: nat, b: nat, k: nat)
    requires a < Pow2(k) && b < Pow2(k)
    requires forall i: nat :: i < k ==> Bit(a, i) == Bit(b, i)
    ensures a == b
    decreases k
  {
    if k > 0 {
      forall i: nat | i < k - 1
        ensures Bit(a / 2, i) == Bit(b / 2, i)
      {
        assert Bit(a, i + 1) == Bit(b, i + 1);
      }
      SameBits(a / 2, b / 2, k - 1);
      assert Bit(a, 0) == Bit(b, 0);
    }
  }

  lemma HalfOf(x: int, h: int, r: int)
    requires x == 2 * h + r && 0 <= r < 2
    ensures x / 2 == h && x % 2 == r
  {}

  lemma HalfComplement(p: nat, x: nat)
    requires x < 2 * p
    ensures (2 * p - 1 - x) / 2 == p - 1 - x / 2
    ensures (2 * p - 1 - x) % 2 == 1 - x % 2
  {
    HalfOf(2 * p - 1 - x, p - 1 - x / 2, 1 - x % 2);
  }

  /** `~x` in a word of k bits. */
  lemma {:induction false} BitOfComplement(x: nat, k: nat, i: nat)
    requires x < Pow2(k) && i < k
    ensures Bit(Pow2(k) - 1 - x, i) == !Bit(x, i)
    decreases k
  {
    HalfComplement(Pow2(k - 1), x);
    if i > 0 { BitOfComplement(x / 2, k - 1, i - 1); }
  }

  // ----- arithmetic meaning of the operators

  lemma {:induction false} AndSelf(a: nat)
    ensures And(a, a) == a
  {
    if a > 0 { AndSelf(a / 2); }
  }

  lemma {:induction false} AndComplement(a: nat, k: nat)
    requires a < Pow2(k)
    ensures And(a, Pow2(k) - 1 - a) == 0
    decreases k
  {
    if k > 0 {
      HalfComplement(Pow2(k - 1), a);
      AndComplement(a / 2, k - 1);
    }
  }

  lemma {:induction false} AndLowMask(n: nat, k: nat)
    ensures And(n, Pow2(k) - 1) == n % Pow2(k)
    decreases k
  {
    if k > 0 {
      AndLowMask(n / 2, k - 1);
      assert (Pow2(k) - 1) / 2 == Pow2(k - 1) - 1;
      ModSplit(n, Pow2(k - 1));
    }
  }

  /** `a | (c << k)` is a sum when `a` fits in k bits. */
  lemma {:induction false} OrDisjoint(a: nat, c: nat, k: nat)
    requires a < Pow2(k)
    ensures Or(a, c * Pow2(k)) == a + c * Pow2(k)
    decreases k
  {
    if k > 0 && a > 0 && c > 0 {
      DoubleFactor(c, Pow2(k - 1));
      OrDisjoint(a / 2, c, k - 1);
    }
  }

  lemma {:induction false} AndBounded(a: nat, b: nat, k: nat)
    requires a < Pow2(k)
    ensures And(a, b) < Pow2(k)
    decreases k
  {
    if a > 0 && b > 0 && k > 0 { AndBounded(a / 2, b / 2, k - 1); }
  }

  lemma {:induction false} OrBounded(a: nat, b: nat, k: nat)
    requires a < Pow2(k) && b < Pow2(k)
    ensures Or(a, b) < Pow2(k)
    decreases k
  {
    if a > 0 && b > 0 && k > 0 { OrBounded(a / 2, b / 2, k - 1); }
  }

  /** Setting one bit of a word. */
  lemma {:induction false} XorBounded(a: nat, b: nat, k: nat)
    requires a < Pow2(k) && b < Pow2(k)
    ensures Xor(a, b) < Pow2(k)
  {
    if a > 0 && b > 0 {
      if k > 0 { XorBounded(a / 2, b / 2, k - 1); }
    }
  }

  lemma BitOfOrPow2(x: nat, k: nat, i: nat)
    ensures Bit(Or(x, Pow2(k)), i) == (Bit(x, i) || i == k)
  {
    BitOr(x, Pow2(k), i);
    BitOfPow2(k, i);
  }

  lemma {:induction false} BitOfPow2(k: nat, i: nat)
    ensures Bit(Pow2(k), i) == (i == k)
  {
    if k == 0 {
      if i > 0 { ZeroBit(i - 1); }
    } else if i > 0 {
      BitOfPow2(k - 1, i - 1);
    }
  }

  lemma HalfNegation(p: nat, m: nat)
    requires m < 2 * p
    ensures m % 2 == 1 ==> (2 * p - m) % 2 == 1 && (2 * p - m) / 2 == p - 1 - m / 2
    ensures m % 2 == 0 ==> (2 * p - m) % 2 == 0 && (2 * p - m) / 2 == p - m / 2
  {
    if m % 2 == 1 {
      HalfOf(2 * p - m, p - 1 - m / 2, 1);
    } else {
      HalfOf(2 * p - m, p - m / 2, 0);
    }
  }

  /** `x & -x` isolates the lowest set bit. */
  lemma {:induction false} LowestSetBit(m: nat, k: nat)
    requires 0 < m < Pow2(k)
    ensures And(m, Pow2(k) - m) == Pow2(Tz(m))
    decreases k
  {
    HalfNegation(Pow2(k - 1), m);
    if m % 2 == 1 {
      AndComplement(m / 2, k - 1);
    } else {
      LowestSetBit(m / 2, k - 1);
    }
  }

  lemma DoubleFactor(a: nat, p: nat)
    ensures a * (2 * p) == 2 * (a * p)
  {}

  lemma {:induction false} TzFactor(m: nat) returns (a: nat)
    requires m > 0
    ensures m == a * Pow2(Tz(m)) && a % 2 == 1
  {
    if m % 2 == 1 {
      a := m;
    } else {
      a := TzFactor(m / 2);
      DoubleFactor(a, Pow2(Tz(m / 2)));
    }
  }

  lemma {:induction false} Ilog2Bounds(x: nat)
    requires x > 0
    ensures Pow2(Ilog2(x)) <= x < 2 * Pow2(Ilog2(x))
    ensures Bit(x, Ilog2(x))
  {
    if x >= 2 { Ilog2Bounds(x / 2); }
  }

  lemma {:induction false} PowerOf2Iff(n: nat)
    ensures IsPowerOf2(n) <==> n > 0 && n == Pow2(Ilog2(n))
  {
    if n == 1 || n == 0 {
    } else if n % 2 == 0 {
      PowerOf2Iff(n / 2);
      assert (n - 1) / 2 == n / 2 - 1;
    } else {
      AndSelf(n / 2);
      assert (n - 1) / 2 == n / 2;
    }
  }

  lemma {:induction false} Pow2Add(a: nat, b: nat)
    ensures Pow2(a + b) == Pow2(a) * Pow2(b)
  {
    if a > 0 {
      Pow2Add(a - 1, b);
    }
  }

  lemma Pow2At32()
    ensures Pow2(31) == 0x8000_0000 && Pow2(32) == 0x1_0000_0000
  {
    assert Pow2(8) == 0x100;
    Pow2Add(8, 8);
    Pow2Add(16, 16);
    assert Pow2(32) == 2 * Pow2(31);
  }

  lemma Pow2At64()
    ensures Pow2(63) == 0x8000_0000_0000_0000 && Pow2(64) == 0x1_0000_0000_0000_0000
  {
    Pow2At32();
    Pow2Add(32, 32);
    assert Pow2(64) == 2 * Pow2(63);
  }

  lemma {:induction false} Pow2Mono(a: nat, b: nat)
    requires a <= b
    ensures Pow2(a) <= Pow2(b)
    decreases b
  {
    if a < b { Pow2Mono(a, b - 1); }
  }

  lemma {:induction false} BitOfProduct(x: nat, k: nat, i: nat)
    ensures Bit(x * Pow2(k), i) == (i >= k && Bit(x, i - k))
  {
    if k > 0 {
      var y := x * Pow2(k - 1);
      DoubleFactor(x, Pow2(k - 1));
      HalfOf(x * Pow2(k), y, 0);
      if i > 0 { BitOfProduct(x, k - 1, i - 1); }
    }
  }

  lemma {:induction false} EqualBits(a: nat, b: nat)
    requires forall i: nat :: Bit(a, i) == Bit(b, i)
    ensures a == b
  {
    assert Bit(a, 0) == Bit(b, 0);
    if a != 0 || b != 0 {
      forall i: nat
        ensures Bit(a / 2, i) == Bit(b / 2, i)
      {
        assert Bit(a, i + 1) == Bit(b, i + 1);
      }
      EqualBits(a / 2, b / 2);
    }
  }

  // ----- the bitwise operators on 32-bit words

  function And32(a: u32, b: u32): u32 {
    Pow2At32();
    AndBounded(a, b, 32);
    And(a, b)
  }

  function Or32(a: u32, b: u32): u32 {
    Pow2At32();
    OrBounded(a, b, 32);
    Or(a, b)
  }

  function Xor32(a: u32, b: u32): u32 {
    Pow2At32();
    XorBounded(a, b, 32);
    Xor(a, b)
  }

  // ----- words in memory

  /** The 32-bit word stored in four bytes, in either byte order. */
  function Decode(b: seq<u8>, be: bool): u32
    requires |b| == 4
  {
    var b0: int, b1: int, b2: int, b3: int := b[0], b[1], b[2], b[3];
    if be then b3 + 0x100 * (b2 + 0x100 * (b1 + 0x100 * b0))
    else b0 + 0x100 * (b1 + 0x100 * (b2 + 0x100 * b3))
  }

  /** The four bytes a word is stored as. */
  function Encode(v: u32, be: bool): (b: seq<u8>)
    ensures |b| == 4 && Decode(b, be) == v
  {
    var q1 := v / 0x100;
    var q2 := q1 / 0x100;
    var b0: u8, b1: u8, b2: u8, b3: u8 := v % 0x100, q1 % 0x100, q2 % 0x100, q2 / 0x100;
    if be then [b3, b2, b1, b0] else [b0, b1, b2, b3]
  }

  lemma LowByte(x: u8, y: nat, j: nat)
    ensures Bit(x + 0x100 * y, j) == if j < 8 then Bit(x, j) else Bit(y, j - 8)
  {
    assert Pow2(8) == 0x100;
    OrDisjoint(x, y, 8);
    BitOr(x, y * Pow2(8), j);
    BitOfProduct(y, 8, j);
    if j >= 8 { BitOfSmall(x, 8, j); }
  }

  /** Byte k of a little-endian word has the digits 8k .. 8k + 7, and nothing else counts. */
  lemma DecodeDigits(b: seq<u8>, k: nat, j: nat)
    requires |b| == 4 && k < 4 && j < 8
    ensures Bit(Decode(b, false), 8 * k + j) == Bit(b[k], j)
  {
    var b0: int, b1: int, b2: int, b3: int := b[0], b[1], b[2], b[3];
    LowByte(b0, b1 + 0x100 * (b2 + 0x100 * b3), 8 * k + j);
    if k > 0 { LowByte(b1, b2 + 0x100 * b3, 8 * (k - 1) + j); }
    if k > 1 { LowByte(b2, b3, 8 * (k - 2) + j); }
  }

  /** A big-endian word is the little-endian word of the bytes in reverse. */
  lemma DecodeReversed(b: seq<u8>)
    requires |b| == 4
    ensures Decode(b, true) == Decode([b[3], b[2], b[1], b[0]], false)
  {}

  /** `int32_t` represents the same word, in the range of a signed integer. */
  lemma SignedWord(x: u32)
    ensures -0x8000_0000 <= S32(x) < 0x8000_0000 && U32(S32(x)) == x
  {}
}

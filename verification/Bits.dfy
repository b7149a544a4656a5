/** Bitwise operators of C on unsigned values, written out on natural numbers. */
module Bits {

  /** The C operator `|`. */
  function BitOr(a: nat, b: nat): nat
    decreases a + b
  {
    if a == 0 && b == 0 then 0
    else (if a % 2 == 1 || b % 2 == 1 then 1 else 0) + 2 * BitOr(a / 2, b / 2)
  }

  /** The C operator `&`. */
  function BitAnd(a: nat, b: nat): nat
    decreases a + b
  {
    if a == 0 && b == 0 then 0
    else (if a % 2 == 1 && b % 2 == 1 then 1 else 0) + 2 * BitAnd(a / 2, b / 2)
  }

  lemma {:induction false} AndZero(a: nat)
    ensures BitAnd(a, 0) == 0
  {
    if a > 0 { AndZero(a / 2); }
  }

  /** Or-ing two values without a common bit adds them. */
  lemma {:induction false} OrAdds(a: nat, b: nat)
    requires BitAnd(a, b) == 0
    ensures BitOr(a, b) == a + b
    decreases a + b
  {
    if a > 0 || b > 0 { OrAdds(a / 2, b / 2); }
  }

  lemma OrStep(a: nat, m: nat)
    ensures BitOr(a, 2 * m) == a % 2 + 2 * BitOr(a / 2, m)
  {
  }

  lemma AndOddStep(a: nat, m: nat)
    ensures BitAnd(a, 2 * m + 1) == a % 2 + 2 * BitAnd(a / 2, m)
  {
  }

  lemma AndEvenStep(a: nat, m: nat)
    ensures BitAnd(a, 2 * m) == 2 * BitAnd(a / 2, m)
  {
  }

  lemma {:induction false} AndBound(a: nat, m: nat)
    ensures BitAnd(a, m) <= m
    decreases a + m
  {
    if a > 0 || m > 0 { AndBound(a / 2, m / 2); }
  }

  /** One halving of `a & m`, for an odd mask m == 2 * half + 1; lost is what the mask drops. */
  lemma MaskStep(a: nat, half: nat, lost: int)
    requires BitAnd(a / 2, half) == a / 2 - lost
    ensures BitAnd(a, 2 * half + 1) == a - 2 * lost
  {
    AndOddStep(a, half);
  }

  lemma LowFiveBits(a: nat) returns (f: nat)
    ensures BitAnd(a, 31) == a - 32 * f
  {
    var b := a / 2;
    var c := b / 2;
    var d := c / 2;
    var e := d / 2;
    f := e / 2;
    AndZero(f);
    MaskStep(e, 0, f);
    MaskStep(d, 1, 2 * f);
    MaskStep(c, 3, 4 * f);
    MaskStep(b, 7, 8 * f);
    MaskStep(a, 15, 16 * f);
  }

  lemma LowEightBits(a: nat) returns (g: nat)
    ensures BitAnd(a, 0xFF) == a - 256 * g
  {
    var b := a / 2;
    var c := b / 2;
    g := LowFiveBits(c / 2);
    MaskStep(c, 31, 32 * g);
    MaskStep(b, 63, 64 * g);
    MaskStep(a, 127, 128 * g);
  }

  /** `ch & 0x3FF` keeps the low ten bits. */
  lemma LowTenBits(a: nat)
    ensures BitAnd(a, 0x3FF) == a % 1024
  {
    var b := a / 2;
    var g := LowEightBits(b / 2);
    MaskStep(b, 255, 256 * g);
    MaskStep(a, 511, 512 * g);
    AndBound(a, 0x3FF);
    RemainderOf1024(a, g);
  }

  lemma RemainderOf1024(a: nat, g: nat)
    requires 0 <= a - 1024 * g < 1024
    ensures a - 1024 * g == a % 1024
  {
  }

  /** One halving of `(a | m) & k`, for an even mark m and an odd mask k. */
  lemma MarkStep(a: nat, m: nat, k: nat, half: nat)
    requires BitAnd(BitOr(a / 2, m), k) == half
    ensures BitAnd(BitOr(a, 2 * m), 2 * k + 1) == a % 2 + 2 * half
  {
    OrStep(a, m);
    AndOddStep(BitOr(a, 2 * m), k);
  }

  /** `(ch | 0x80) & 0xBF` is a continuation byte holding the low six bits of ch. */
  lemma ContinuationByte(a: nat)
    ensures BitAnd(BitOr(a, 0x80), 0xBF) == 0x80 + a % 64
  {
    var b := a / 2;
    var c := b / 2;
    var d := c / 2;
    var e := d / 2;
    var f := e / 2;
    var g := f / 2;
    SecondBit(g);
    MarkStep(f, 2, 2, 2);
    MarkStep(e, 4, 5, f - 2 * g + 4);
    MarkStep(d, 8, 11, e - 4 * g + 8);
    MarkStep(c, 16, 23, d - 8 * g + 16);
    MarkStep(b, 32, 47, c - 16 * g + 32);
    MarkStep(a, 64, 95, b - 32 * g + 64);
    assert g == a / 64;
  }

  lemma SecondBit(g: nat)
    ensures BitAnd(BitOr(g, 2), 2) == 2
  {
    var w, u := BitOr(g, 2), BitOr(g / 2, 1);
    OrStep(g, 1);
    AndEvenStep(w, 1);
    assert w / 2 == u;
    LowBit(g / 2);
  }

  lemma LowBit(h: nat)
    ensures BitAnd(BitOr(h, 1), 1) == 1
  {
    var u := BitOr(h, 1);
    assert u % 2 == 1;
    AndZero(u / 2);
    AndOddStep(u, 0);
  }

  /** m shifted left by k bits. */
  function Shl(m: nat, k: nat): nat {
    if k == 0 then m else 2 * Shl(m, k - 1)
  }

  /** A value below 2^k has no bit in common with anything shifted left by k. */
  lemma {:induction false} NoCommonBit(c: nat, m: nat, k: nat)
    requires c < Shl(1, k)
    ensures BitAnd(c, Shl(m, k)) == 0
  {
    if k == 0 {
      NoBits(m);
    } else {
      NoCommonBit(c / 2, m, k - 1);
      AndEvenStep(c, Shl(m, k - 1));
    }
  }

  lemma {:induction false} NoBits(b: nat)
    ensures BitAnd(0, b) == 0
  {
    if b > 0 { NoBits(b / 2); }
  }

  /** Or-ing a mark above the bits in use adds it. */
  lemma OrMark(c: nat, m: nat, k: nat)
    requires c < Shl(1, k)
    ensures BitOr(c, Shl(m, k)) == c + Shl(m, k)
  {
    NoCommonBit(c, m, k);
    OrAdds(c, Shl(m, k));
  }

  /** Or-ing the lead mark of a UTF-8 sequence into the bits left for it adds the mark. */
  lemma LeadByte(c: nat, mark: nat)
    requires || (mark == 0 && c < 0x80) || (mark == 0xC0 && c < 32)
             || (mark == 0xE0 && c < 16) || (mark == 0xF0 && c < 8)
    ensures BitOr(c, mark) == c + mark
  {
    if mark == 0 {
      AndZero(c);
      OrAdds(c, 0);
    } else if mark == 0xC0 {
      assert Shl(1, 5) == 32 && Shl(6, 5) == 0xC0;
      OrMark(c, 6, 5);
    } else if mark == 0xE0 {
      assert Shl(1, 4) == 16 && Shl(14, 4) == 0xE0;
      OrMark(c, 14, 4);
    } else {
      assert Shl(1, 3) == 8 && Shl(30, 3) == 0xF0;
      OrMark(c, 30, 3);
    }
  }
}

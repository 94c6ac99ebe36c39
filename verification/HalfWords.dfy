/** 16-bit halves of 32-bit words: the digits of the multiprecision division. */
module HalfWords {
  import opened Bits

  lemma PowersOfTwo()
    ensures Pow(2, 4) == 0x10
    ensures Pow(2, 8) == 0x100
    ensures Pow(2, 11) == 0x800
    ensures Pow(2, 12) == 0x1000
    ensures Pow(2, 16) == 0x1_0000
    ensures Pow(2, 32) == 0x1_0000_0000
    ensures Pow(2, 64) == 0x1_0000_0000_0000_0000
  {
    assert Pow(2, 3) == 8 && Pow(2, 4) == 0x10;
    hide Pow;
    PowAdd(2, 4, 4);
    PowAdd(2, 8, 3);
    PowAdd(2, 8, 4);
    PowAdd(2, 8, 8);
    PowAdd(2, 16, 16);
    PowAdd(2, 32, 32);
  }

  function ShiftLeft(x: Word, sh: nat): Word
  {
    Wrap(x * Pow(2, sh))
  }

  lemma DivLe(x: nat, d: nat)
    requires d >= 1
    ensures 0 <= x / d <= x
  {
  }

  function ShiftRight(x: Word, sh: nat): (r: Word)
    ensures Pow(2, sh) >= 1
    ensures r <= x
  {
    PowPositive(2, sh);
    DivLe(x, Pow(2, sh));
    x / Pow(2, sh)
  }

  /** The upper digit of a word. */
  function HHalf(x: Word): (r: Word)
    ensures r < 0x1_0000
  {
    x / 0x1_0000
  }

  /** The lower digit of a word. */
  function LHalf(x: Word): (r: Word)
    ensures r < 0x1_0000
  {
    x % 0x1_0000
  }

  /** Two digits side by side. */
  function Combine(a: Word, b: Word): Word
    requires a < 0x1_0000 && b < 0x1_0000
  {
    a * 0x1_0000 + b
  }

  /** The C expression for the lower digit, x & ((1 << 16) - 1). */
  lemma LHalfIsMask(x: Word)
    ensures And(x, 0xFFFF) == LHalf(x)
  {
    PowersOfTwo();
    AndLowMask(x, 16);
  }

  /** The C expression for two digits side by side, (a << 16) | b. */
  lemma CombineIsOr(a: Word, b: Word)
    requires a < 0x1_0000 && b < 0x1_0000
    ensures Or(ShiftLeft(a, 16), b) == Combine(a, b)
  {
    hide Pow, Or, Wrap;
    PowersOfTwo();
    WrapBelow(a * 0x1_0000);
    ModUnique(a * 0x1_0000, 0x1_0000, a, 0);
    OrDisjoint(a * 0x1_0000, b, 16);
  }

  /** A shift by sh and the opposite shift by 16 - sh scale by factors whose product is the base. */
  lemma ShiftFactors(sh: nat)
    requires sh < 16
    ensures Pow(2, sh) >= 1
    ensures Pow(2, 16 - sh) >= 1
    ensures Pow(2, sh) * Pow(2, 16 - sh) == 0x1_0000
  {
    PowPositive(2, sh);
    PowPositive(2, 16 - sh);
    PowersOfTwo();
    PowAdd(2, sh, 16 - sh);
  }

  /** Scaling by e moves the split at f to a split at the base. */
  lemma ScaledDivMod(x: nat, e: nat, f: nat)
    requires e >= 1 && f >= 1
    requires e * f == 0x1_0000
    ensures x * e / 0x1_0000 == x / f
    ensures x * e % 0x1_0000 == (x % f) * e
  {
    assert x == f * (x / f) + x % f;
    MulDistrib(f * (x / f), x % f, e);
    MulAssoc(e, f, x / f);
    MulMono(x % f + 1, f, e);
    MulDistrib(x % f, 1, e);
    MulMono(0, x % f, e);
    ModUnique(x * e, 0x1_0000, x / f, (x % f) * e);
  }

  lemma ScaleLow(x: nat, e: nat, f: nat)
    requires e >= 1 && f >= 1
    requires e * f == 0x1_0000
    requires x < 0x1_0000
    ensures x * e < 0x1_0000_0000
    ensures x * e % 0x1_0000 == (x % f) * e
    ensures (x * e % 0x1_0000) % e == 0
  {
    MulMono(1, f, e);
    MulMono(x, 0x1_0000, e);
    ScaledDivMod(x, e, f);
    ModUnique((x % f) * e, e, x % f, 0);
  }

  /** What a left shift leaves in a digit. */
  lemma LowPart(x: Word, sh: nat)
    requires x < 0x1_0000 && sh < 16
    ensures Pow(2, sh) >= 1
    ensures LHalf(ShiftLeft(x, sh)) == x * Pow(2, sh) % 0x1_0000
    ensures (x * Pow(2, sh) % 0x1_0000) % Pow(2, sh) == 0
  {
    ShiftFactors(sh);
    ScaleLow(x, Pow(2, sh), Pow(2, 16 - sh));
    assert ShiftLeft(x, sh) == x * Pow(2, sh);
  }

  lemma ScaleHigh(y: nat, e: nat, f: nat)
    requires e >= 1 && f >= 1
    requires e * f == 0x1_0000
    requires y < 0x1_0000
    ensures y / f == y * e / 0x1_0000 < e
  {
    ScaledDivMod(y, e, f);
    var r := y / f;
    if r >= e {
      MulMono(e, r, f);
      assert false;
    }
  }

  /** What a left shift pushes out of a digit. */
  lemma HighPart(y: Word, sh: nat)
    requires y < 0x1_0000 && sh < 16
    ensures Pow(2, sh) >= 1
    ensures ShiftRight(y, 16 - sh) == y * Pow(2, sh) / 0x1_0000 < Pow(2, sh)
  {
    ShiftFactors(sh);
    ScaleHigh(y, Pow(2, sh), Pow(2, 16 - sh));
  }

  /** A digit that is a multiple of a divisor of the base leaves room for a full remainder. */
  lemma RoomAbove(x: nat, e: nat, f: nat)
    requires e >= 1
    requires e * f == 0x1_0000
    requires x < 0x1_0000 && x % e == 0
    ensures x + e <= 0x1_0000
  {
    var k := x / e;
    assert x == e * k;
    if k >= f {
      MulMono(f, k, e);
      assert false;
    }
    MulMono(k + 1, f, e);
    MulDistrib(k, 1, e);
  }

  /** Shifting a digit left and filling it from the top of the next one. */
  lemma ShiftParts(x: Word, y: Word, sh: nat)
    requires x < 0x1_0000 && y < 0x1_0000 && sh < 16
    ensures Pow(2, sh) >= 1
    ensures Or(LHalf(ShiftLeft(x, sh)), ShiftRight(y, 16 - sh))
         == x * Pow(2, sh) % 0x1_0000 + y * Pow(2, sh) / 0x1_0000 < 0x1_0000
  {
    LowPart(x, sh);
    HighPart(y, sh);
    OrDisjoint(LHalf(ShiftLeft(x, sh)), ShiftRight(y, 16 - sh), sh);
    ShiftFactors(sh);
    RoomAbove(x * Pow(2, sh) % 0x1_0000, Pow(2, sh), Pow(2, 16 - sh));
  }

  lemma QuotientBelow(x: nat, e: nat, f: nat)
    requires e >= 1
    requires e * f == 0x1_0000
    requires x < 0x1_0000
    ensures 0 <= x / e < f
  {
    var r := x / e;
    if r >= f {
      MulMono(f, r, e);
      assert false;
    }
  }

  /** Shifting a digit right and filling it from the bottom of the previous one. */
  lemma UnshiftParts(x: Word, y: Word, sh: nat)
    requires x < 0x1_0000 && y < 0x1_0000 && 1 <= sh < 16
    ensures Pow(2, sh) >= 1
    ensures Or(ShiftRight(x, sh), LHalf(ShiftLeft(y, 16 - sh)))
         == x / Pow(2, sh) + (y % Pow(2, sh)) * Pow(2, 16 - sh) < 0x1_0000
  {
    var e, f := Pow(2, sh), Pow(2, 16 - sh);
    ShiftFactors(sh);
    var lo, hi := LHalf(ShiftLeft(y, 16 - sh)), ShiftRight(x, sh);
    assert lo == (y % e) * f && lo % f == 0 by {
      LowPart(y, 16 - sh);
      ScaledDivMod(y, f, e);
    }
    QuotientBelow(x, e, f);
    OrDisjoint(lo, hi, 16 - sh);
    OrCommutes(hi, lo);
    RoomAbove(lo, f, e);
  }

  /** A product of two digits fits a word. */
  lemma ProductFits(x: Word, y: Word)
    requires x < 0x1_0000 && y < 0x1_0000
    ensures 0 <= x * y <= 0xFFFE_0001
  {
    assert 0 <= x * y by {
      MulMono(0, x, y);
    }
    assert x * y <= 0xFFFF * y by {
      MulMono(x, 0xFFFF, y);
    }
  }
}

/** Machine words of the 32-bit target, and the C bit operators on them, defined bit by bit. */
module Bits {
  type Byte = b: int | 0 <= b < 0x100
  type Word = w: int | 0 <= w < 0x1_0000_0000
  type Quad = q: int | 0 <= q < 0x1_0000_0000_0000_0000

  function Pow(base: nat, e: nat): nat
  {
    if e == 0 then 1 else base * Pow(base, e - 1)
  }

  /** Unsigned 32-bit arithmetic is modulo 2^32. */
  function Wrap(x: int): Word
  {
    x % 0x1_0000_0000
  }

  /** Unsigned 64-bit arithmetic is modulo 2^64. */
  function WrapQuad(x: int): Quad
  {
    x % 0x1_0000_0000_0000_0000
  }

  lemma WrapBelow(x: int)
    requires 0 <= x < 0x1_0000_0000
    ensures Wrap(x) == x
  {
  }

  lemma WrapQuadBelow(x: int)
    requires 0 <= x < 0x1_0000_0000_0000_0000
    ensures WrapQuad(x) == x
  {
  }

  /** Bitwise or: a bit is set when it is set in either operand. */
  function Or(x: nat, y: nat): nat
  {
    if x == 0 then y
    else 2 * Or(x / 2, y / 2) + (if x % 2 == 1 || y % 2 == 1 then 1 else 0)
  }

  /** Bitwise and: a bit is set when it is set in both operands. */
  function And(x: nat, y: nat): nat
  {
    if x == 0 then 0
    else 2 * And(x / 2, y / 2) + (if x % 2 == 1 && y % 2 == 1 then 1 else 0)
  }

  lemma {:induction false} PowPositive(base: nat, e: nat)
    requires base >= 1
    ensures Pow(base, e) >= 1
  {
    if e != 0 {
      PowPositive(base, e - 1);
    }
  }

  lemma MulAssoc(x: int, y: int, z: int)
    ensures (x * y) * z == x * (y * z)
  {
  }

  lemma {:induction false} PowAdd(base: nat, e: nat, f: nat)
    ensures Pow(base, e + f) == Pow(base, e) * Pow(base, f)
  {
    if e == 0 {
      assert Pow(base, 0) * Pow(base, f) == Pow(base, f);
    } else {
      PowAdd(base, e - 1, f);
      MulAssoc(base, Pow(base, e - 1), Pow(base, f));
    }
  }

  lemma MulSwap(x: int, y: int, z: int)
    ensures x * (y * z) == y * (x * z)
  {
  }

  lemma MulMono(x: int, y: int, z: int)
    requires x <= y
    requires 0 <= z
    ensures x * z <= y * z
  {
  }

  lemma MulDistrib(x: int, y: int, z: int)
    ensures (x + y) * z == x * z + y * z
  {
  }

  lemma {:induction false} ModUnique(x: int, d: int, q: int, r: int)
    requires 0 <= r < d
    requires x == d * q + r
    ensures x / d == q
    ensures x % d == r
  {
    var q', r' := x / d, x % d;
    assert d * (q' - q) == r - r';
    assert q' - q >= 1 ==> d * (q' - q) >= d;
    assert q' - q <= -1 ==> d * (q' - q) <= -d;
  }

  /** A quotient of 2^k-multiples halves along with the power. */
  lemma HalveMod(x: nat, k: nat)
    requires k >= 1
    ensures Pow(2, k - 1) >= 1
    ensures Pow(2, k) >= 1
    ensures x % Pow(2, k) == 2 * ((x / 2) % Pow(2, k - 1)) + x % 2
  {
    PowPositive(2, k - 1);
    var p := Pow(2, k - 1);
    var h := x / 2;
    var q, r := h / p, h % p;
    assert h == p * q + r;
    assert x == (2 * p) * q + (2 * r + x % 2) by {
      assert 2 * (p * q) == (2 * p) * q;
    }
    ModUnique(x, 2 * p, q, 2 * r + x % 2);
  }

  lemma {:induction false} OrZero(x: nat)
    ensures Or(x, 0) == x
  {
    if x != 0 {
      OrZero(x / 2);
    }
  }

  /** Or of a multiple of 2^k and a number below 2^k is their sum: no bit position is shared. */
  lemma {:induction false} OrDisjoint(x: nat, y: nat, k: nat)
    requires Pow(2, k) >= 1
    requires x % Pow(2, k) == 0
    requires y < Pow(2, k)
    ensures Or(x, y) == x + y
  {
    if x != 0 {
      if k == 0 {
        assert y == 0;
        OrZero(x);
      } else {
        HalveMod(x, k);
        OrDisjoint(x / 2, y / 2, k - 1);
      }
    }
  }

  lemma {:induction false} OrCommutes(x: nat, y: nat)
    ensures Or(x, y) == Or(y, x)
  {
    if x == 0 {
      OrZero(y);
    } else if y == 0 {
      OrZero(x);
    } else {
      OrCommutes(x / 2, y / 2);
    }
  }

  lemma {:induction false} AndZero(x: nat)
    ensures And(x, 0) == 0
  {
    if x != 0 {
      AndZero(x / 2);
    }
  }

  lemma AndOrHalves(x: nat, y: nat)
    ensures And(x, y) == 2 * And(x / 2, y / 2) + (if x % 2 == 1 && y % 2 == 1 then 1 else 0)
    ensures Or(x, y) == 2 * Or(x / 2, y / 2) + (if x % 2 == 1 || y % 2 == 1 then 1 else 0)
  {
  }

  /** Bit k of a number. */
  function Bit(x: nat, k: nat): nat
  {
    PowPositive(2, k);
    x / Pow(2, k) % 2
  }

  lemma BitStep(x: nat, k: nat)
    requires k >= 1
    ensures Bit(x, k) == Bit(x / 2, k - 1)
  {
    PowPositive(2, k - 1);
    var p := Pow(2, k - 1);
    var q, r := x / 2 / p, x / 2 % p;
    MulAssoc(2, p, q);
    ModUnique(x, 2 * p, q, 2 * r + x % 2);
  }

  lemma LowestBit(h: nat, b: nat)
    requires b < 2
    ensures Bit(2 * h + b, 0) == b && (2 * h + b) / 2 == h
  {
    ModUnique(2 * h + b, 2, h, b);
  }

  /** And and or work bit by bit. */
  lemma {:induction false} BitwiseAndOr(x: nat, y: nat, k: nat)
    ensures Bit(And(x, y), k) == (if Bit(x, k) == 1 && Bit(y, k) == 1 then 1 else 0)
    ensures Bit(Or(x, y), k) == (if Bit(x, k) == 1 || Bit(y, k) == 1 then 1 else 0)
    decreases k
  {
    AndOrHalves(x, y);
    var a, o := And(x / 2, y / 2), Or(x / 2, y / 2);
    var c, d := if x % 2 == 1 && y % 2 == 1 then 1 else 0, if x % 2 == 1 || y % 2 == 1 then 1 else 0;
    LowestBit(a, c);
    LowestBit(o, d);
    hide And, Or;
    if k == 0 {
      hide Bit;
      LowestBit(x / 2, x % 2);
      LowestBit(y / 2, y % 2);
    } else {
      hide Bit;
      BitwiseAndOr(x / 2, y / 2, k - 1);
      BitStep(x, k);
      BitStep(y, k);
      BitStep(And(x, y), k);
      BitStep(Or(x, y), k);
    }
  }

  /** The remainder modulo 2^k. */
  function Rest(x: nat, k: nat): nat
  {
    PowPositive(2, k);
    x % Pow(2, k)
  }

  lemma RestStep(x: nat, k: nat)
    requires k >= 1
    ensures Rest(x, k) == 2 * Rest(x / 2, k - 1) + x % 2
  {
    HalveMod(x, k);
  }

  lemma ZeroMod(d: nat)
    requires d > 0
    ensures 0 % d == 0
  {
  }

  lemma RestZero(k: nat)
    ensures Rest(0, k) == 0
  {
    PowPositive(2, k);
    ZeroMod(Pow(2, k));
  }

  lemma AndUnfolds(x: nat, m: nat)
    requires x > 0
    ensures And(x, m) == 2 * And(x / 2, m / 2) + (if x % 2 == 1 && m % 2 == 1 then 1 else 0)
  {
  }

  lemma AndLowStep(x: nat, p: nat, r: nat)
    requires x > 0 && p >= 1
    requires And(x / 2, p - 1) == r
    ensures And(x, 2 * p - 1) == 2 * r + x % 2
  {
    hide And;
    AndUnfolds(x, 2 * p - 1);
    ModUnique(2 * p - 1, 2, p - 1, 1);
  }

  lemma {:induction false} AndLowRest(x: nat, k: nat)
    requires Pow(2, k) >= 1
    ensures And(x, Pow(2, k) - 1) == Rest(x, k)
  {
    if k == 0 {
      AndZero(x);
      ModUnique(x, 1, x, 0);
    } else if x > 0 {
      assert Pow(2, k) == 2 * Pow(2, k - 1);
      PowPositive(2, k - 1);
      hide Pow, Rest;
      AndLowRest(x / 2, k - 1);
      RestStep(x, k);
      AndLowStep(x, Pow(2, k - 1), Rest(x / 2, k - 1));
    } else {
      RestZero(k);
    }
  }

  /** Masking with 2^k - 1 keeps the remainder modulo 2^k. */
  lemma AndLowMask(x: nat, k: nat)
    ensures Pow(2, k) >= 1
    ensures And(x, Pow(2, k) - 1) == x % Pow(2, k)
  {
    PowPositive(2, k);
    AndLowRest(x, k);
  }

  lemma AndAllOnes(x: nat, n: nat)
    requires x < Pow(2, n)
    ensures And(x, Pow(2, n) - Pow(2, 0)) == x - Rest(x, 0)
  {
    AndLowMask(x, n);
    ModUnique(x, Pow(2, n), 0, x);
    ModUnique(x, 1, x, 0);
  }

  lemma AndStep(x: nat, m: nat, r: nat)
    requires x > 0 && m % 2 == 0
    requires And(x / 2, m / 2) == x / 2 - r
    ensures And(x, m) == x - (2 * r + x % 2)
  {
  }

  lemma HalvedMask(p: nat, q: nat)
    ensures (2 * p - 2 * q) / 2 == p - q
    ensures (2 * p - 2 * q) % 2 == 0
  {
  }

  lemma AndHighStep(x: nat, p: nat, q: nat, r: nat)
    requires x > 0 && q <= p
    requires And(x / 2, p - q) == x / 2 - r
    ensures And(x, 2 * p - 2 * q) == x - (2 * r + x % 2)
  {
    hide And;
    HalvedMask(p, q);
    AndStep(x, 2 * p - 2 * q, r);
  }

  lemma {:induction false} AndHighRest(x: nat, k: nat, n: nat)
    requires k <= n
    requires x < Pow(2, n) && Pow(2, k) <= Pow(2, n)
    ensures And(x, Pow(2, n) - Pow(2, k)) == x - Rest(x, k)
  {
    if k == 0 {
      AndAllOnes(x, n);
    } else if x > 0 {
      assert Pow(2, n) == 2 * Pow(2, n - 1) && Pow(2, k) == 2 * Pow(2, k - 1);
      hide Pow, And, Rest;
      AndHighRest(x / 2, k - 1, n - 1);
      RestStep(x, k);
      AndHighStep(x, Pow(2, n - 1), Pow(2, k - 1), Rest(x / 2, k - 1));
    } else {
      RestZero(k);
    }
  }

  lemma {:induction false} PowOrder(base: nat, k: nat, n: nat)
    requires base >= 1
    requires k <= n
    ensures 1 <= Pow(base, k) <= Pow(base, n)
  {
    PowPositive(base, k);
    if k < n {
      PowOrder(base, k, n - 1);
      MulMono(1, base, Pow(base, n - 1));
    }
  }

  /** Masking with ~(2^k - 1), taken in n bits, rounds an n-bit number down to a multiple of 2^k. */
  lemma AndHighMask(x: nat, k: nat, n: nat)
    requires k <= n
    requires x < Pow(2, n)
    ensures 1 <= Pow(2, k) <= Pow(2, n)
    ensures And(x, Pow(2, n) - Pow(2, k)) == x - x % Pow(2, k)
  {
    PowOrder(2, k, n);
    AndHighRest(x, k, n);
  }

  lemma OrOne(x: nat)
    ensures Or(x, 1) == 2 * (x / 2) + 1
  {
    OrZero(x / 2);
  }

  lemma AndOne(x: nat)
    ensures And(x, 1) == x % 2
  {
    AndZero(x / 2);
  }

  lemma OrDouble(x: nat, y: nat)
    ensures Or(x, 2 * y) == 2 * Or(x / 2, y) + x % 2
  {
    ModUnique(2 * y, 2, y, 0);
  }

  lemma AndDouble(x: nat, y: nat)
    ensures And(x, 2 * y) == 2 * And(x / 2, y)
  {
    ModUnique(2 * y, 2, y, 0);
  }
}

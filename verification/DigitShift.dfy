/** Shifting a whole digit sequence left and right by less than one digit. */
module DigitShift {
  import opened Bits
  import opened Digits
  import opened HalfWords

  /** What the digit at position k pushes into the digit before it; nothing comes in behind the last. */
  ghost function Carry(s: seq<int>, e: nat, k: nat): int
  {
    if k < |s| then s[k] * e / 0x1_0000 else 0
  }

  /** t is s shifted left by the factor e, digit by digit. */
  ghost predicate ShiftedLeft(s: seq<int>, t: seq<int>, e: nat)
  {
    && |t| == |s|
    && forall k :: 0 <= k < |s| ==> t[k] == s[k] * e % 0x1_0000 + Carry(s, e, k + 1)
  }

  lemma ShiftLeftStep(tv: int, c: int, p: int, sv: int, x: int, e: int, y: int, carry: int)
    requires tv + c * p == sv * e + x * e / 0x1_0000
    requires y == x * e % 0x1_0000 + carry
    ensures tv * 0x1_0000 + y + c * (0x1_0000 * p) == (sv * 0x1_0000 + x) * e + carry
  {
    assert c * (0x1_0000 * p) == (c * p) * 0x1_0000;
    assert (sv * 0x1_0000 + x) * e == (sv * e) * 0x1_0000 + x * e;
  }

  /** One digit more of both values and of the carry. */
  lemma PrefixStep(s: seq<int>, t: seq<int>, e: nat, k: nat)
    requires 0 < k <= |s| && ShiftedLeft(s, t, e)
    ensures Val(s[..k], 0x1_0000) == Val(s[..k - 1], 0x1_0000) * 0x1_0000 + s[k - 1]
    ensures Val(t[..k], 0x1_0000) == Val(t[..k - 1], 0x1_0000) * 0x1_0000 + t[k - 1]
    ensures t[k - 1] == s[k - 1] * e % 0x1_0000 + Carry(s, e, k)
    ensures Carry(s, e, k - 1) == s[k - 1] * e / 0x1_0000
    ensures Pow(0x1_0000, k) == 0x1_0000 * Pow(0x1_0000, k - 1)
  {
    hide Val;
    assert s[..k] == s[..k - 1] + [s[k - 1]] && t[..k] == t[..k - 1] + [t[k - 1]];
    ValSnoc(s[..k - 1], s[k - 1], 0x1_0000);
    ValSnoc(t[..k - 1], t[k - 1], 0x1_0000);
  }

  lemma {:induction false} ShiftedLeftPrefix(s: seq<int>, t: seq<int>, e: nat, k: nat)
    requires |s| > 0 && k <= |s|
    requires ShiftedLeft(s, t, e)
    ensures Val(t[..k], 0x1_0000) + (s[0] * e / 0x1_0000) * Pow(0x1_0000, k)
         == Val(s[..k], 0x1_0000) * e + Carry(s, e, k)
  {
    if k == 0 {
      assert (s[0] * e / 0x1_0000) * Pow(0x1_0000, 0) == s[0] * e / 0x1_0000;
      assert s[..0] == [] == t[..0];
      assert Val([], 0x1_0000) * e == 0;
    } else {
      hide Val, Pow, Carry, ShiftedLeft;
      ShiftedLeftPrefix(s, t, e, k - 1);
      PrefixStep(s, t, e, k);
      ShiftLeftStep(Val(t[..k - 1], 0x1_0000), s[0] * e / 0x1_0000, Pow(0x1_0000, k - 1), Val(s[..k - 1], 0x1_0000),
                    s[k - 1], e, t[k - 1], Carry(s, e, k));
    }
  }

  /** Shifting left multiplies, apart from what falls out of the first digit. */
  lemma ShiftedLeftValue(s: seq<int>, t: seq<int>, e: nat)
    requires |s| > 0
    requires ShiftedLeft(s, t, e)
    ensures Val(t, 0x1_0000) + (s[0] * e / 0x1_0000) * Pow(0x1_0000, |s|) == Val(s, 0x1_0000) * e
  {
    ShiftedLeftPrefix(s, t, e, |s|);
    assert s[..|s|] == s && t[..|t|] == t;
  }

  /** t is s shifted right by the factor e, digit by digit, with a zero in front; e*f is the base. */
  ghost predicate ShiftedRight(s: seq<int>, t: seq<int>, e: nat, f: nat)
    requires e > 0
  {
    && |t| == |s| > 0
    && t[0] == 0
    && forall k :: 1 <= k < |s| ==> t[k] == s[k] / e + (s[k - 1] % e) * f
  }

  lemma ExactQuotient(x: int, y: int, e: nat, r: int)
    requires 0 <= r < e
    requires x * e + r == y * e
    ensures x == y
  {
    ModUnique(y * e, e, x, r);
    ModUnique(y * e, e, y, 0);
  }

  lemma ShiftRightStep(tv: int, sv: int, x: int, y: int, e: nat, f: nat)
    requires e > 0 && e * f == 0x1_0000
    requires tv * e + y == sv
    ensures (tv * 0x1_0000 + (x / e + y * f)) * e + x % e == sv * 0x1_0000 + x
  {
    assert (y * f) * e == y * 0x1_0000 by {
      MulAssoc(y, f, e);
    }
    assert (tv * 0x1_0000) * e == (tv * e) * 0x1_0000;
    MulDistrib(tv * 0x1_0000, x / e + y * f, e);
    MulDistrib(x / e, y * f, e);
    assert x == e * (x / e) + x % e;
  }

  lemma {:induction false} ShiftedRightPrefix(s: seq<int>, t: seq<int>, e: nat, f: nat, k: nat)
    requires e > 0 && e * f == 0x1_0000
    requires ShiftedRight(s, t, e, f)
    requires s[0] == 0
    requires 1 <= k <= |s|
    ensures Val(t[..k], 0x1_0000) * e + s[k - 1] % e == Val(s[..k], 0x1_0000)
  {
    assert s[..k] == s[..k - 1] + [s[k - 1]] && t[..k] == t[..k - 1] + [t[k - 1]];
    ValSnoc(s[..k - 1], s[k - 1], 0x1_0000);
    ValSnoc(t[..k - 1], t[k - 1], 0x1_0000);
    if k > 1 {
      ShiftedRightPrefix(s, t, e, f, k - 1);
      ShiftRightStep(Val(t[..k - 1], 0x1_0000), Val(s[..k - 1], 0x1_0000), s[k - 1], s[k - 2] % e, e, f);
    }
  }

  /** Shifting right divides exactly when the number is a multiple. */
  lemma ShiftedRightValue(s: seq<int>, t: seq<int>, e: nat, f: nat, quo: int)
    requires e > 0 && e * f == 0x1_0000
    requires ShiftedRight(s, t, e, f)
    requires s[0] == 0
    requires Val(s, 0x1_0000) == quo * e
    ensures Val(t, 0x1_0000) == quo
  {
    ShiftedRightPrefix(s, t, e, f, |s|);
    assert s[..|s|] == s && t[..|t|] == t;
    var r := s[|s| - 1] % e;
    ExactQuotient(Val(t, 0x1_0000), quo, e, r);
  }

  /** Shift p[o..o+len] left by sh bits in place. */
  method Shl(p: array<Word>, o: nat, len: nat, sh: nat)
    requires o + len < p.Length && sh < 16
    requires DigitArray(p)
    modifies p
    ensures DigitArray(p)
    ensures forall k :: 0 <= k < p.Length && !(o <= k <= o + len) ==> p[k] == old(p[k])
    ensures Val(p[o..o + len + 1], 0x1_0000) + (old(p[o]) * Pow(2, sh) / 0x1_0000) * Pow(0x1_0000, len + 1)
         == Val(old(p[o..o + len + 1]), 0x1_0000) * Pow(2, sh)
  {
    hide Val, Pow, Or, LHalf, ShiftLeft, ShiftRight;
    ghost var e := Pow(2, sh);
    ghost var s: seq<int> := p[o..o + len + 1];
    var i := 0;
    while i < len
      invariant 0 <= i <= len
      invariant DigitArray(p)
      invariant forall k :: 0 <= k < p.Length && !(o <= k < o + i) ==> p[k] == old(p[k])
      invariant forall k :: 0 <= k < i ==> p[o + k] == s[k] * e % 0x1_0000 + Carry(s, e, k + 1)
    {
      ShiftParts(p[o + i], p[o + i + 1], sh);
      assert p[o + i] == s[i] && p[o + i + 1] == s[i + 1];
      p[o + i] := Or(LHalf(ShiftLeft(p[o + i], sh)), ShiftRight(p[o + i + 1], 16 - sh));
      i := i + 1;
    }
    LowPart(p[o + i], sh);
    assert p[o + i] == s[i];
    p[o + i] := LHalf(ShiftLeft(p[o + i], sh));
    ShiftedLeftValue(s, p[o..o + len + 1], e);
  }

  /** Shift p[o..o+len] right by sh bits in place, from the last digit to the first, which becomes zero. */
  method Unshift(p: array<Word>, o: nat, len: nat, sh: nat)
    requires o + len < p.Length && 1 <= sh < 16
    requires DigitArray(p)
    modifies p
    ensures DigitArray(p)
    ensures forall k :: 0 <= k < p.Length && !(o <= k <= o + len) ==> p[k] == old(p[k])
    ensures p[o] == 0
    ensures forall quo :: old(p[o]) == 0 && Val(old(p[o..o + len + 1]), 0x1_0000) == quo * Pow(2, sh)
              ==> Val(p[o..o + len + 1], 0x1_0000) == quo
  {
    ShiftFactors(sh);
    ghost var e, f := Pow(2, sh), Pow(2, 16 - sh);
    ghost var s: seq<int> := p[o..o + len + 1];
    var i := len;
    while i > 0
      invariant 0 <= i <= len
      invariant DigitArray(p)
      invariant forall k :: 0 <= k < p.Length && !(o + i < k <= o + len) ==> p[k] == old(p[k])
      invariant forall k :: i < k <= len ==> p[o + k] == s[k] / e + (s[k - 1] % e) * f
    {
      assert p[o + i] == s[i] && p[o + i - 1] == s[i - 1];
      UnshiftParts(p[o + i], p[o + i - 1], sh);
      p[o + i] := Or(ShiftRight(p[o + i], sh), LHalf(ShiftLeft(p[o + i - 1], 16 - sh)));
      i := i - 1;
    }
    p[o] := 0;
    ghost var t: seq<int> := p[o..o + len + 1];
    forall quo | s[0] == 0 && Val(s, 0x1_0000) == quo * e ensures Val(t, 0x1_0000) == quo {
      ShiftedRightValue(s, t, e, f, quo);
    }
  }
}

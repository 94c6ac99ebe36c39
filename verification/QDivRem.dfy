/** The 64-bit division routines of standalone/qdivrem.c. */
module QDivRem {
  import opened Bits
  import opened Digits
  import opened HalfWords
  import opened DigitShift
  import opened LongDivision

  lemma PrefixValue(s: seq<int>, k: nat)
    requires k < |s|
    ensures Val(s[..k + 1], 0x1_0000) == Val(s[..k], 0x1_0000) * 0x1_0000 + s[k]
  {
    assert s[..k + 1] == s[..k] + [s[k]];
    ValSnoc(s[..k], s[k], 0x1_0000);
  }

  /** Four digits as a number. */
  lemma FourDigits(s: seq<int>)
    requires |s| == 4
    ensures Val(s, 0x1_0000) == ((s[0] * 0x1_0000 + s[1]) * 0x1_0000 + s[2]) * 0x1_0000 + s[3]
  {
    PrefixValue(s, 0);
    PrefixValue(s, 1);
    PrefixValue(s, 2);
    PrefixValue(s, 3);
    assert s[..4] == s && Val(s[..0], 0x1_0000) == 0;
  }

  /** Break a number into the digits a[1..4]. */
  method LoadDigits(a: array<Word>, x: Quad)
    requires a.Length == 5
    modifies a
    ensures a[0] == old(a[0])
    ensures forall k :: 1 <= k <= 4 ==> a[k] < 0x1_0000
    ensures Val(a[1..5], 0x1_0000) == x
  {
    var hi, lo := x / 0x1_0000_0000, x % 0x1_0000_0000;
    a[1] := HHalf(hi);
    a[2] := LHalf(hi);
    a[3] := HHalf(lo);
    a[4] := LHalf(lo);
    FourDigits(a[1..5]);
  }

  /** Combine the digits a[1..4] into a number. */
  method StoreDigits(a: array<Word>) returns (x: Quad)
    requires a.Length == 5
    requires forall k :: 1 <= k <= 4 ==> a[k] < 0x1_0000
    ensures x == Val(a[1..5], 0x1_0000)
  {
    FourDigits(a[1..5]);
    x := Combine(a[1], a[2]) * 0x1_0000_0000 + Combine(a[3], a[4]);
  }

  /** One step of the short division: dividing r*B + u by t. */
  lemma ShortStep(r: nat, u: nat, t: nat)
    requires r < t < 0x1_0000 && u < 0x1_0000
    ensures var x := r * 0x1_0000 + u;
            && 0 <= x / t < 0x1_0000
            && 0 <= x % t < t
            && x == (x / t) * t + x % t
  {
    var x := r * 0x1_0000 + u;
    var q := x / t;
    assert x == q * t + x % t;
    if q >= 0x1_0000 {
      MulMono(0x1_0000, q, t);
      assert false;
    }
  }

  lemma ShortTotal(q1: int, q2: int, q3: int, q4: int, t: int)
    ensures (((q1 * 0x1_0000 + q2) * 0x1_0000 + q3) * 0x1_0000 + q4) * t
         == ((q1 * t * 0x1_0000 + q2 * t) * 0x1_0000 + q3 * t) * 0x1_0000 + q4 * t
  {
  }

  /** Exercise 16 of section 4.3.1: dividing the four digits u[1..4] by the single digit t. */
  method ShortDivide(u: array<Word>, t: Word) returns (quo: Quad, rem: Word)
    requires u.Length == 5
    requires forall k :: 1 <= k <= 4 ==> u[k] < 0x1_0000
    requires 0 < t < 0x1_0000
    ensures Val(u[1..5], 0x1_0000) == quo * t + rem
    ensures rem < t
  {
    FourDigits(u[1..5]);
    ShortStep(0, u[1], t);
    var q1 := u[1] / t;
    ShortStep(u[1] % t, u[2], t);
    var rbj := Combine(u[1] % t, u[2]);
    var q2 := rbj / t;
    ShortStep(rbj % t, u[3], t);
    rbj := Combine(rbj % t, u[3]);
    var q3 := rbj / t;
    ShortStep(rbj % t, u[4], t);
    rbj := Combine(rbj % t, u[4]);
    var q4 := rbj / t;
    rem := rbj % t;
    quo := Combine(q1, q2) * 0x1_0000_0000 + Combine(q3, q4);
    ShortTotal(q1, q2, q3, q4, t);
  }

  /** D1: count the shift that brings the leading divisor digit to at least half the base. */
  method NormalisingShift(v1: Word) returns (d: nat)
    requires 0 < v1 < 0x1_0000
    ensures d < 16
    ensures 0x8000 <= v1 * Pow(2, d) < 0x1_0000
  {
    assert Pow(2, 15) == 0x8000;
    d := 0;
    var t := v1;
    while t < 0x8000
      invariant d <= 15
      invariant 0 < t < 0x1_0000
      invariant t == v1 * Pow(2, d)
      invariant t >= Pow(2, d)
      decreases 0x1_0000 - t
    {
      assert v1 * Pow(2, d + 1) == 2 * (v1 * Pow(2, d)) by {
        MulSwap(v1, 2, Pow(2, d));
      }
      t := t * 2;
      d := d + 1;
    }
  }

  lemma DropLeadingZero(s: seq<int>, lo: nat, hi: nat)
    requires lo < hi <= |s| && s[lo] == 0
    ensures Val(s[lo..hi], 0x1_0000) == Val(s[lo + 1..hi], 0x1_0000)
  {
    assert s[lo..hi] == [s[lo]] + s[lo + 1..hi];
    ValLeadingZeros([s[lo]], s[lo + 1..hi], 0x1_0000);
  }

  /**
   * Skip the leading zero digits of the divisor: v[vo+1..vo+n] are its digits, the first of
   * them nonzero. When a single digit is left, it is v[vo+2] and n is 1.
   */
  method SkipDivisorZeros(v: array<Word>, ghost vq: nat) returns (vo: nat, n: nat)
    requires v.Length == 5
    requires forall k :: 1 <= k <= 4 ==> v[k] < 0x1_0000
    requires vq == Val(v[1..5], 0x1_0000) && vq != 0
    ensures if n == 1 then vo == 2 && v[4] == vq else n >= 2 && n == 4 - vo && v[vo + 1] != 0
    ensures n != 1 ==> Val(v[vo + 1..5], 0x1_0000) == vq
  {
    vo, n := 0, 4;
    while v[vo + 1] == 0
      invariant 0 <= vo <= 2 && n == 4 - vo
      invariant Val(v[vo + 1..5], 0x1_0000) == vq
      decreases n
    {
      DropLeadingZero(v[..], vo + 1, 5);
      n := n - 1;
      if n == 1 {
        PrefixValue(v[4..5], 0);
        assert v[4..5][..1] == v[4..5] && v[4..5][..0] == [];
        return;
      }
      vo := vo + 1;
    }
  }

  /** A leading zero digit leaves at least n digits behind it, when the number needs them. */
  lemma ZeroIsLeading(s: seq<int>, i: nat, n: nat, x: nat)
    requires |s| == 5 && AllDigits(s, 0x1_0000) && i < 5 && s[i] == 0 && n >= 1
    requires Val(s[i..5], 0x1_0000) == x >= Pow(0x1_0000, n - 1)
    ensures Val(s[i + 1..5], 0x1_0000) == x
    ensures i + n < 5
  {
    hide Val, Pow;
    DropLeadingZero(s, i, 5);
    ValBound(s[i + 1..5], 0x1_0000);
    if 4 - i <= n - 1 {
      PowOrder(0x1_0000, 4 - i, n - 1);
    }
  }

  /** Skip the leading zero digits of the dividend; at least as many digits as in the divisor remain. */
  method SkipDividendZeros(u: array<Word>, n: nat, ghost uq: nat) returns (uo: nat, m: nat)
    requires u.Length == 5 && 2 <= n <= 4
    requires forall k :: 0 <= k <= 4 ==> u[k] < 0x1_0000
    requires u[0] == 0
    requires uq == Val(u[1..5], 0x1_0000) >= Pow(0x1_0000, n - 1)
    ensures uo + m + n == 4
    ensures u[uo + 1] != 0
    ensures forall k :: 0 <= k <= uo ==> u[k] == 0
    ensures Val(u[uo + 1..5], 0x1_0000) == uq
  {
    hide Val, Pow;
    uo, m := 0, 4 - n;
    while u[uo + 1] == 0
      invariant uo + m + n == 4
      invariant forall k :: 0 <= k <= uo ==> u[k] == 0
      invariant Val(u[uo + 1..5], 0x1_0000) == uq
      decreases m
    {
      ZeroIsLeading(u[..], uo + 1, n, uq);
      uo, m := uo + 1, m - 1;
    }
  }

  /** A number with a nonzero leading digit. */
  lemma LeadingWeight(s: seq<int>)
    requires |s| > 0 && AllDigits(s, 0x1_0000) && s[0] >= 1
    ensures Pow(0x1_0000, |s| - 1) <= Val(s, 0x1_0000)
  {
    ValLeading(s, 0x1_0000);
    MulMono(1, s[0], Pow(0x1_0000, |s| - 1));
  }

  lemma NothingFallsOut(x: nat, span: int, left: int, right: int)
    requires x < 0x1_0000
    requires left + (x / 0x1_0000) * span == right
    ensures left == right
  {
  }

  lemma LeadingScales(x: nat, x': nat, e: nat, p: nat, v: int, v': int)
    requires x * p <= v
    requires v * e == v' < (x' + 1) * p
    requires 0x8000 <= x * e
    ensures x' >= 0x8000
  {
    MulMono(x * p, v, e);
    assert (x * p) * e == (x * e) * p;
    if x' + 1 <= x * e {
      MulMono(x' + 1, x * e, p);
      assert false;
    }
  }

  /** D1 on the divisor: scaling it by e keeps its length and raises its leading digit. */
  lemma ScaledDivisor(vs: seq<int>, vs': seq<int>, e: nat)
    requires |vs| == |vs'| >= 1
    requires AllDigits(vs, 0x1_0000) && AllDigits(vs', 0x1_0000)
    requires 0x8000 <= vs[0] * e < 0x1_0000
    requires Val(vs', 0x1_0000) + (vs[0] * e / 0x1_0000) * Pow(0x1_0000, |vs|) == Val(vs, 0x1_0000) * e
    ensures Val(vs', 0x1_0000) == Val(vs, 0x1_0000) * e
    ensures vs'[0] >= 0x8000
  {
    NothingFallsOut(vs[0] * e, Pow(0x1_0000, |vs|), Val(vs', 0x1_0000), Val(vs, 0x1_0000) * e);
    var p := Pow(0x1_0000, |vs| - 1);
    assert vs[0] * p <= Val(vs, 0x1_0000) by {
      ValLeading(vs, 0x1_0000);
    }
    assert Val(vs', 0x1_0000) < (vs'[0] + 1) * p by {
      ValLeading(vs', 0x1_0000);
    }
    LeadingScales(vs[0], vs'[0], e, p, Val(vs, 0x1_0000), Val(vs', 0x1_0000));
  }

  lemma TopBelow(top: int, p: nat, h: nat, uq: nat, e: nat)
    requires top * p <= uq * e
    requires uq < h * p
    requires e >= 1
    ensures top < h * e
  {
    MulMono(uq + 1, h * p, e);
    MulDistrib(uq, 1, e);
    assert (h * e) * p == (h * p) * e;
    if top >= h * e {
      MulMono(h * e, top, p);
      assert false;
    }
  }

  /** The leading n digits of the scaled dividend are below the scaled divisor. */
  lemma ScaledDividendFits(us: seq<int>, n: nat, m: nat, uq: nat, e: nat, vv: nat)
    requires |us| == m + n + 1 && n >= 1 && e >= 1
    requires AllDigits(us, 0x1_0000)
    requires Val(us, 0x1_0000) == uq * e
    requires uq < Pow(0x1_0000, m + n)
    requires Pow(0x1_0000, n - 1) * e <= vv
    ensures Val(us[..n], 0x1_0000) < vv
  {
    var top, p := us[..n], Pow(0x1_0000, m + 1);
    assert us == top + us[n..];
    ValConcat(top, us[n..], 0x1_0000);
    ValBound(us[n..], 0x1_0000);
    PowAdd(0x1_0000, n - 1, m + 1);
    TopBelow(Val(top, 0x1_0000), p, Pow(0x1_0000, n - 1), uq, e);
  }

  /** Dividing scaled numbers gives the quotient, and the scaled remainder. */
  lemma Unscale(uq: nat, vq: nat, e: nat, q: nat, r: nat) returns (rem: nat)
    requires e >= 1 && vq >= 1
    requires uq * e == q * (vq * e) + r
    requires r < vq * e
    ensures r == rem * e
    ensures q == uq / vq && rem == uq % vq
  {
    MulAssoc(q, vq, e);
    MulDistrib(uq, -(q * vq), e);
    var d := uq - q * vq;
    assert d * e == r;
    if d <= -1 {
      MulMono(d, -1, e);
      assert false;
    }
    if d >= vq {
      MulMono(vq, d, e);
      assert false;
    }
    rem := d;
    ModUnique(uq, vq, q, d);
  }

  /** Scaling by the shift d of D1: dividend and divisor keep their quotient. */
  ghost predicate Normalised(us: seq<int>, uo: nat, vs: seq<int>, vo: nat, n: nat, d: nat, uq: nat, vq: nat)
    requires |us| == 5 && |vs| == 5 && uo + n <= 5 && vo + 1 < 5
  {
    && vs[vo + 1] >= 0x8000
    && Val(us[uo..5], 0x1_0000) == uq * Pow(2, d)
    && Val(vs[vo + 1..5], 0x1_0000) == vq * Pow(2, d)
    && Val(us[uo..uo + n], 0x1_0000) < Val(vs[vo + 1..5], 0x1_0000)
  }

  lemma NormalisedDividend(us: seq<int>, us': seq<int>, uo: nat, m: nat, n: nat, e: nat, uq: nat, vv: nat)
    requires |us| == |us'| == 5
    requires AllDigits(us, 0x1_0000) && AllDigits(us', 0x1_0000)
    requires uo + m + n == 4 && n >= 2 && e >= 1
    requires us[uo] == 0
    requires Val(us[uo + 1..5], 0x1_0000) == uq
    requires Val(us'[uo..5], 0x1_0000) + (us[uo] * e / 0x1_0000) * Pow(0x1_0000, 5 - uo) == Val(us[uo..5], 0x1_0000) * e
    requires Pow(0x1_0000, n - 1) * e <= vv
    ensures Val(us'[uo..5], 0x1_0000) == uq * e
    ensures Val(us'[uo..uo + n], 0x1_0000) < vv
  {
    hide Val, Pow;
    DropLeadingZero(us, uo, 5);
    NothingFallsOut(us[uo] * e, Pow(0x1_0000, 5 - uo), Val(us'[uo..5], 0x1_0000), uq * e);
    assert uq < Pow(0x1_0000, m + n) by {
      ValBound(us[uo + 1..5], 0x1_0000);
    }
    SliceOfSlice(us', uo, 5, 0, n);
    assert us'[uo..5][..n] == us'[uo..5][0..n];
    ScaledDividendFits(us'[uo..5], n, m, uq, e, vv);
  }

  lemma NormalisedBy(us: seq<int>, us': seq<int>, uo: nat, vs: seq<int>, vs': seq<int>, vo: nat, m: nat, n: nat, d: nat,
                     uq: nat, vq: nat)
    requires |us| == |us'| == 5 && |vs| == |vs'| == 5
    requires AllDigits(us, 0x1_0000) && AllDigits(us', 0x1_0000) && AllDigits(vs, 0x1_0000) && AllDigits(vs', 0x1_0000)
    requires uo + m + n == 4 && vo + n == 4 && n >= 2
    requires us[uo] == 0 && vs[vo + 1] != 0
    requires Val(us[uo + 1..5], 0x1_0000) == uq && Val(vs[vo + 1..5], 0x1_0000) == vq
    requires 0x8000 <= vs[vo + 1] * Pow(2, d) < 0x1_0000
    requires Val(us'[uo..5], 0x1_0000) + (us[uo] * Pow(2, d) / 0x1_0000) * Pow(0x1_0000, 5 - uo)
          == Val(us[uo..5], 0x1_0000) * Pow(2, d)
    requires Val(vs'[vo + 1..5], 0x1_0000) + (vs[vo + 1] * Pow(2, d) / 0x1_0000) * Pow(0x1_0000, n)
          == Val(vs[vo + 1..5], 0x1_0000) * Pow(2, d)
    ensures Normalised(us', uo, vs', vo, n, d, uq, vq)
  {
    var e := Pow(2, d);
    PowPositive(2, d);
    ScaledDivisor(vs[vo + 1..5], vs'[vo + 1..5], e);
    assert Pow(0x1_0000, n - 1) * e <= vq * e by {
      LeadingWeight(vs[vo + 1..5]);
      MulMono(Pow(0x1_0000, n - 1), vq, e);
    }
    NormalisedDividend(us, us', uo, m, n, e, uq, vq * e);
  }

  /** D1: shift dividend u[uo..] and divisor v[vo+1..] left until the leading divisor digit is large. */
  method Normalise(u: array<Word>, uo: nat, v: array<Word>, vo: nat, m: nat, n: nat, ghost uq: nat, ghost vq: nat)
    returns (d: nat)
    requires u != v && u.Length == 5 && v.Length == 5
    requires DigitArray(u) && DigitArray(v)
    requires uo + m + n == 4 && vo + n == 4 && n >= 2
    requires u[uo] == 0 && v[vo + 1] != 0
    requires Val(u[uo + 1..5], 0x1_0000) == uq && Val(v[vo + 1..5], 0x1_0000) == vq
    modifies u, v
    ensures d < 16
    ensures DigitArray(u) && DigitArray(v)
    ensures forall k :: 0 <= k < uo ==> u[k] == old(u[k])
    ensures Normalised(u[..], uo, v[..], vo, n, d, uq, vq)
  {
    hide Val, Normalised;
    d := NormalisingShift(v[vo + 1]);
    ghost var us: seq<int> := u[..];
    ghost var vs: seq<int> := v[..];
    if d > 0 {
      Shl(u, uo, m + n, d);
      Shl(v, vo + 1, n - 1, d);
    }
    NormalisedBy(us, u[..], uo, vs, v[..], vo, m, n, d, uq, vq);
  }

  /** Undo the shift of D1 on the remainder u[uo+m+1..]. */
  method Denormalise(u: array<Word>, o: nat, n: nat, d: nat, ghost rem: nat)
    requires u.Length == 5 && o + n == 4 && d < 16
    requires DigitArray(u)
    requires forall k :: 0 <= k <= o ==> u[k] == 0
    requires Val(u[o + 1..5], 0x1_0000) == rem * Pow(2, d)
    modifies u
    ensures DigitArray(u)
    ensures Val(u[1..5], 0x1_0000) == rem
  {
    DropLeadingZero(u[..], o, 5);
    if d != 0 {
      Unshift(u, o, n, d);
    }
    DropLeadingZero(u[..], 0, 5);
    assert u[0..5] == u[0..o] + u[o..5];
    ValLeadingZeros(u[0..o], u[o..5], 0x1_0000);
  }

  lemma Unscaled(uq: nat, vq: nat, d: nat, dividend: int, vv: int, q: int, r: int) returns (rem: nat)
    requires vq >= 1 && q >= 0
    requires dividend == uq * Pow(2, d) && vv == vq * Pow(2, d)
    requires dividend == q * vv + r
    requires 0 <= r < vv
    ensures r == rem * Pow(2, d)
    ensures q == uq / vq && rem == uq % vq
  {
    PowPositive(2, d);
    rem := Unscale(uq, vq, Pow(2, d), q, r);
  }

  /** Normalise, divide, and collect the quotient; the scaled remainder stays in u. */
  method DivideStage(u: array<Word>, uo: nat, v: array<Word>, vo: nat, m: nat, n: nat, ghost uq: nat, ghost vq: nat)
    returns (quo: Quad, d: nat, ghost rem: nat)
    requires u != v && u.Length == 5 && v.Length == 5
    requires DigitArray(u) && DigitArray(v)
    requires uo + m + n == 4 && vo + n == 4 && n >= 2
    requires forall k :: 0 <= k <= uo ==> u[k] == 0
    requires v[vo + 1] != 0
    requires Val(u[uo + 1..5], 0x1_0000) == uq && Val(v[vo + 1..5], 0x1_0000) == vq > 0
    modifies u, v
    ensures d < 16
    ensures DigitArray(u)
    ensures forall k :: 0 <= k <= uo + m ==> u[k] == 0
    ensures quo == uq / vq
    ensures rem == uq % vq
    ensures Val(u[uo + m + 1..5], 0x1_0000) == rem * Pow(2, d)
  {
    hide Val, Pow;
    var q := new Word[5](_ => 0);
    d := Normalise(u, uo, v, vo, m, n, uq, vq);
    ghost var dividend, vv := Val(u[uo..5], 0x1_0000), Val(v[vo + 1..5], 0x1_0000);
    DivideDigits(u, uo, v, vo, q, 4 - m, m, n, dividend, vv);
    ghost var qv, r := Val(q[4 - m..5], 0x1_0000), Val(u[uo + m + 1..5], 0x1_0000);
    ValBound(q[4 - m..5], 0x1_0000);
    rem := Unscaled(uq, vq, d, dividend, vv, qv, r);
    assert q[1..5] == q[1..4 - m] + q[4 - m..5];
    ValLeadingZeros(q[1..4 - m], q[4 - m..5], 0x1_0000);
    quo := StoreDigits(q);
  }

  /** The route of Program D: a divisor of at least two digits. */
  method LongRoute(u: array<Word>, v: array<Word>, vo: nat, n: nat, ghost uq: nat, ghost vq: nat) returns (quo: Quad)
    requires u != v && u.Length == 5 && v.Length == 5
    requires DigitArray(u) && DigitArray(v)
    requires u[0] == 0 && Val(u[1..5], 0x1_0000) == uq
    requires n >= 2 && vo + n == 4 && v[vo + 1] != 0 && Val(v[vo + 1..5], 0x1_0000) == vq
    requires uq >= vq
    modifies u, v
    ensures DigitArray(u)
    ensures vq > 0
    ensures quo == uq / vq
    ensures Val(u[1..5], 0x1_0000) == uq % vq
  {
    LeadingWeight(v[vo + 1..5]);
    PowPositive(0x1_0000, n - 1);
    var uo, m := SkipDividendZeros(u, n, uq);
    var d;
    ghost var rem;
    quo, d, rem := DivideStage(u, uo, v, vo, m, n, uq, vq);
    Denormalise(u, uo + m, n, d, rem);
  }

  /**
   * The quotient of two unsigned 64-bit numbers, and their remainder when wantRem asks for it.
   * Dividing by zero traps in the original and is excluded.
   */
  method QDivRem(uq: Quad, vq: Quad, wantRem: bool) returns (quo: Quad, rem: Quad)
    requires vq != 0
    ensures quo == uq / vq
    ensures wantRem ==> rem == uq % vq
  {
    rem := 0;
    if uq < vq {
      ModUnique(uq, vq, 0, uq);
      if wantRem {
        rem := uq;
      }
      return 0, rem;
    }
    var uspace := new Word[5](_ => 0);
    var vspace := new Word[5](_ => 0);
    LoadDigits(uspace, uq);
    LoadDigits(vspace, vq);
    var vo, n := SkipDivisorZeros(vspace, vq);
    if n == 1 {
      var r;
      quo, r := ShortDivide(uspace, vspace[vo + 2]);
      ModUnique(uq, vq, quo, r);
      if wantRem {
        rem := r;
      }
      return;
    }
    quo := LongRoute(uspace, vspace, vo, n, uq, vq);
    if wantRem {
      rem := StoreDigits(uspace);
    }
  }

  /** The remainder of two unsigned 64-bit numbers. */
  method UModDi3(a: Quad, b: Quad) returns (r: Quad)
    requires b != 0
    ensures r == a % b
  {
    var q;
    q, r := QDivRem(a, b, true);
  }

  /** The quotient of two unsigned 64-bit numbers. */
  method UDivDi3(a: Quad, b: Quad) returns (q: Quad)
    requires b != 0
    ensures q == a / b
  {
    var r;
    q, r := QDivRem(a, b, false);
  }

  type SignedQuad = q: int | -0x8000_0000_0000_0000 <= q < 0x8000_0000_0000_0000

  /** The 64-bit pattern x read as a signed number. */
  function AsSigned(x: Quad): SignedQuad
  {
    if x < 0x8000_0000_0000_0000 then x else x - 0x1_0000_0000_0000_0000
  }

  function Abs(x: int): (r: nat)
    ensures r == x || r == -x
  {
    if x < 0 then -x else x
  }

  /** Division in C rounds toward zero. */
  ghost function TruncatedQuotient(a: int, b: int): int
    requires b != 0
  {
    if (a < 0) == (b < 0) then Abs(a) / Abs(b) else -(Abs(a) / Abs(b))
  }

  /** A number and its negation have opposite products, from either side. */
  lemma MulNegated(q: int, b: int)
    ensures -q * b == q * -b == -(q * b)
  {
  }

  lemma TruncatedProduct(a: int, b: int)
    requires b != 0
    ensures TruncatedQuotient(a, b) * b
         == if a < 0 then -((Abs(a) / Abs(b)) * Abs(b)) else (Abs(a) / Abs(b)) * Abs(b)
  {
    MulNegated(Abs(a) / Abs(b), b);
    MulNegated(Abs(a) / Abs(b), -b);
  }

  lemma DivisionLeaves(x: nat, d: nat)
    requires d > 0
    ensures 0 <= x - (x / d) * d < d
  {
    assert x == d * (x / d) + x % d;
  }

  /** What is left over is smaller than the divisor, and has the sign of the dividend. */
  lemma TruncationMeans(a: int, b: int)
    requires b != 0
    ensures var left := a - TruncatedQuotient(a, b) * b;
            -(Abs(b) as int) < left < Abs(b) && (a >= 0 ==> left >= 0) && (a <= 0 ==> left <= 0)
  {
    TruncatedProduct(a, b);
    DivisionLeaves(Abs(a), Abs(b));
    hide TruncatedQuotient;
  }

  /** The signed number with the same bits. */
  lemma SignedMeans(x: Quad)
    ensures WrapQuad(AsSigned(x)) == x
  {
    ModUnique(AsSigned(x), 0x1_0000_0000_0000_0000, if x < 0x8000_0000_0000_0000 then 0 else -1, x);
  }

  /** Negating the 64-bit pattern of a negative number gives its magnitude. */
  function Magnitude(a: SignedQuad): (r: Quad)
    ensures r == Abs(a)
  {
    if a < 0 then WrapQuad(0 - WrapQuad(a) as int) else a
  }

  lemma QuotientSign(x: nat, d: nat)
    requires d > 0
    ensures 0 <= x / d <= x
  {
    var q := x / d;
    assert x == d * q + x % d;
    if q <= -1 {
      MulMono(q, -1, d);
      assert false;
    }
    MulMono(1, d, q);
  }

  /**
   * The signed quotient, rounded toward zero. The magnitudes are divided as unsigned numbers, so
   * the one quotient out of range, that of the least number by -1, comes out as the least number.
   */
  method DivDi3(a: SignedQuad, b: SignedQuad) returns (q: SignedQuad)
    requires b != 0
    ensures q == AsSigned(WrapQuad(TruncatedQuotient(a, b)))
  {
    hide WrapQuad;
    var ua, ub := Magnitude(a), Magnitude(b);
    var neg := a < 0;
    if b < 0 {
      neg := !neg;
    }
    var uq := UDivDi3(ua, ub);
    QuotientSign(ua, ub);
    WrapQuadBelow(uq);
    q := AsSigned(if neg then WrapQuad(0 - uq as int) else uq);
  }

  lemma HalvedQuotient(x: nat, d: nat)
    requires d >= 2
    ensures 2 * (x / d) <= x
  {
    MulMono(2, d, x / d);
  }

  /** The wrapped result is the true quotient except for the least number divided by -1. */
  lemma SignedQuotientExact(a: SignedQuad, b: SignedQuad)
    requires b != 0
    ensures AsSigned(WrapQuad(TruncatedQuotient(a, b))) == TruncatedQuotient(a, b)
       <==> !(a == -0x8000_0000_0000_0000 && b == -1)
  {
    var x, d := Abs(a), Abs(b);
    QuotientSign(x, d);
    if d >= 2 {
      HalvedQuotient(x, d);
    } else {
      assert x / 1 == x;
    }
  }
}

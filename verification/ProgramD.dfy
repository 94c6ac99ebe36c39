/** Program D over digit arrays: one quotient digit, then all of them (standalone/qdivrem.c). */
module ProgramD {
  import opened Bits
  import opened Digits
  import opened HalfWords
  import opened KnuthD
  import opened TrialQuotient
  import opened DivisionStep

  lemma TwoDigits(x: int, y: int)
    ensures Val([x] + [y], 0x1_0000) == x * 0x1_0000 + y
  {
    ValSnoc([x], y, 0x1_0000);
    ValSnoc([], x, 0x1_0000);
    assert [] + [x] == [x];
  }

  /** A digit sequence as two leading digits, a third digit, and a rest below its weight. */
  lemma SplitWindow(s: seq<int>)
    requires |s| >= 3
    requires AllDigits(s, 0x1_0000)
    ensures var p := Pow(0x1_0000, |s| - 3);
            && 0 <= Val(s[3..], 0x1_0000) < p
            && Val(s, 0x1_0000) == Window(s[0] * 0x1_0000 + s[1], s[2], p, Val(s[3..], 0x1_0000))
  {
    hide Val, Pow;
    var p := Pow(0x1_0000, |s| - 3);
    assert s == s[..3] + s[3..];
    ValConcat(s[..3], s[3..], 0x1_0000);
    ValBound(s[3..], 0x1_0000);
    assert s[..3] == ([s[0]] + [s[1]]) + [s[2]];
    ValSnoc([s[0]] + [s[1]], s[2], 0x1_0000);
    TwoDigits(s[0], s[1]);
    var nn := s[0] * 0x1_0000 + s[1];
    MulDistrib(nn * 0x1_0000, s[2], p);
    MulAssoc(nn, 0x1_0000, p);
  }

  lemma SplitDivisor(s: seq<int>)
    requires |s| >= 2
    requires AllDigits(s, 0x1_0000)
    ensures var p := Pow(0x1_0000, |s| - 2);
            && 0 <= Val(s[2..], 0x1_0000) < p
            && Val(s, 0x1_0000) == Divisor(s[0], s[1], p, Val(s[2..], 0x1_0000))
  {
    hide Val, Pow;
    var p := Pow(0x1_0000, |s| - 2);
    assert s == s[..2] + s[2..];
    ValConcat(s[..2], s[2..], 0x1_0000);
    ValBound(s[2..], 0x1_0000);
    assert s[..2] == [s[0]] + [s[1]];
    TwoDigits(s[0], s[1]);
    MulDistrib(s[0] * 0x1_0000, s[1], p);
    MulAssoc(s[0], 0x1_0000, p);
  }

  lemma QuotientNonNegative(x: nat, d: nat)
    requires d > 0
    ensures 0 <= x / d
  {
  }

  lemma EuclideanDivision(x: nat, d: nat) returns (quo: nat, rem: nat)
    requires d > 0
    ensures x == quo * d + rem
    ensures rem < d
    ensures quo == x / d && rem == x % d
  {
    quo, rem := x / d, x % d;
    QuotientNonNegative(x, d);
  }

  /** The first trial digit is a digit, and its product with v1 is within the two leading digits. */
  lemma FirstTrialFits(v1: nat, u0: nat, u1: nat, first: nat)
    requires 1 <= v1 && u0 <= v1 && u1 < 0x1_0000
    requires first == TriedFirst(u0, u1, v1)
    ensures first < 0x1_0000 && first * v1 <= u0 * 0x1_0000 + u1
  {
    if u0 < v1 {
      QuotientDigit(u0 * 0x1_0000 + u1, v1);
    }
  }

  /** The two leading digits, times their weight, are within the number. */
  lemma LeadingPair(s: seq<int>)
    requires |s| >= 3
    requires AllDigits(s, 0x1_0000)
    ensures (s[0] * 0x1_0000 + s[1]) * Pow(0x1_0000, |s| - 2) <= Val(s, 0x1_0000)
  {
    var p := Pow(0x1_0000, |s| - 3);
    assert Pow(0x1_0000, |s| - 2) == 0x1_0000 * p;
    hide Val, Pow;
    SplitWindow(s);
    MulMono(0, s[2], p);
  }

  /** Knuth's Theorem B for the digits of step D3. */
  lemma FirstTrialIsClose(s: seq<int>, vs: seq<int>, first: nat, quo: nat, rem: nat)
    requires |vs| >= 2 && |s| == |vs| + 1
    requires AllDigits(s, 0x1_0000) && AllDigits(vs, 0x1_0000)
    requires 0x8000 <= vs[0] && s[0] <= vs[0]
    requires first == TriedFirst(s[0], s[1], vs[0])
    requires Val(s, 0x1_0000) == quo * Val(vs, 0x1_0000) + rem && rem < Val(vs, 0x1_0000)
    ensures first <= quo + 2
  {
    hide Val, Pow;
    var h, nn := Pow(0x1_0000, |vs| - 1), s[0] * 0x1_0000 + s[1];
    ValLeading(vs, 0x1_0000);
    MulDistrib(vs[0], 1, h);
    LeadingPair(s);
    FirstTrialFits(vs[0], s[0], s[1], first);
    MulDistrib(quo, 1, Val(vs, 0x1_0000));
    TheoremB(0x1_0000, h, vs[0], nn, Val(vs, 0x1_0000), Val(s, 0x1_0000), first, quo);
  }

  /**
   * What step D3 promises about its digit, in terms of the whole window and divisor: the settled
   * digit is at most one above the true one, and the first one tried at most two.
   */
  lemma TrialForWindow(s: seq<int>, vs: seq<int>, first: nat, q: nat, r: nat) returns (quo: nat, rem: nat)
    requires |vs| >= 2 && |s| == |vs| + 1
    requires AllDigits(s, 0x1_0000) && AllDigits(vs, 0x1_0000)
    requires 0x8000 <= vs[0] && s[0] <= vs[0] && q < 0x1_0000
    requires Val(s, 0x1_0000) < Val(vs, 0x1_0000) * 0x1_0000
    requires first == TriedFirst(s[0], s[1], vs[0])
    requires Settled(vs[0], vs[1], s[0] * 0x1_0000 + s[1], s[2], first, q, r)
    ensures Val(s, 0x1_0000) == quo * Val(vs, 0x1_0000) + rem
    ensures rem < Val(vs, 0x1_0000)
    ensures quo <= q <= quo + 1
    ensures first <= quo + 2
  {
    hide Val, Pow, Settled;
    SplitWindow(s);
    SplitDivisor(vs);
    ValBound(s, 0x1_0000);
    TrialDigitBounds(vs[0], vs[1], s[0] * 0x1_0000 + s[1], s[2], Pow(0x1_0000, |s| - 3),
                     Val(vs[2..], 0x1_0000), Val(s[3..], 0x1_0000), first, q, r);
    quo, rem := EuclideanDivision(Val(s, 0x1_0000), Val(vs, 0x1_0000));
    FirstTrialIsClose(s, vs, first, quo, rem);
  }

  lemma LeadingDigits(x: nat, y: nat, weight: nat, a: int, b: int)
    requires x * weight <= a < b
    requires b < (y + 1) * weight
    ensures x <= y
  {
    if x >= y + 1 {
      MulMono(y + 1, x, weight);
    }
  }

  /**
   * A window whose first n digits are below the divisor is below B divisors, and its first digit is
   * at most the divisor's.
   */
  lemma WindowFits(s: seq<int>, vs: seq<int>)
    requires |vs| >= 2 && |s| == |vs| + 1
    requires AllDigits(s, 0x1_0000) && AllDigits(vs, 0x1_0000)
    requires Val(s[..|s| - 1], 0x1_0000) < Val(vs, 0x1_0000)
    ensures 0 <= Val(s, 0x1_0000) < Val(vs, 0x1_0000) * 0x1_0000
    ensures s[0] <= vs[0]
  {
    hide Val, Pow;
    var init, last := s[..|vs|], s[|vs|];
    assert s == init + [last];
    ValBound(s, 0x1_0000);
    ValSnoc(init, last, 0x1_0000);
    ValLeading(init, 0x1_0000);
    ValLeading(vs, 0x1_0000);
    LeadingDigits(s[0], vs[0], Pow(0x1_0000, |vs| - 1), Val(init, 0x1_0000), Val(vs, 0x1_0000));
  }

  /** The trial digit is the true digit, or one more exactly when the subtraction borrows. */
  lemma BorrowMeansOneTooLarge(w: int, v: nat, q: nat, quo: nat, rem: nat, left: int, span: nat, borrow: bool)
    requires rem < v <= span
    requires w == quo * v + rem
    requires quo <= q <= quo + 1
    requires left == w - q * v + (if borrow then span else 0)
    requires 0 <= left < span
    ensures if borrow then q == quo + 1 && left == rem - v + span else q == quo && left == rem
  {
    MulDistrib(quo, 1, v);
    assert q == quo || q == quo + 1;
  }

  /**
   * D4 to D6 with a digit that is the true one or one more: the true digit is returned, and
   * the window keeps the remainder.
   */
  method TakeDigit(u: array<Word>, w: nat, v: array<Word>, vo: nat, n: nat, qhat: Word, ghost quo: nat, ghost rem: nat)
    returns (qd: Word)
    requires u != v
    requires w + n < u.Length && vo + n < v.Length
    requires DigitArray(u) && DigitArray(v) && qhat < 0x1_0000
    requires quo <= qhat <= quo + 1
    requires Val(u[w..w + n + 1], 0x1_0000) == quo * Val(v[vo + 1..vo + n + 1], 0x1_0000) + rem
    requires rem < Val(v[vo + 1..vo + n + 1], 0x1_0000)
    modifies u
    ensures DigitArray(u)
    ensures forall k :: 0 <= k < u.Length && !(w <= k <= w + n) ==> u[k] == old(u[k])
    ensures qd == quo
    ensures Val(u[w..w + n + 1], 0x1_0000) == rem
  {
    hide Val;
    ghost var sv := Val(u[w..w + n + 1], 0x1_0000);
    ghost var vv, span := Val(v[vo + 1..vo + n + 1], 0x1_0000), Pow(0x1_0000, n + 1);
    ValBound(v[vo + 1..vo + n + 1], 0x1_0000);
    assert span == 0x1_0000 * Pow(0x1_0000, n);
    var t := MultiplySubtract(u, w, v, vo, n, qhat);
    ghost var left := Val(u[w..w + n + 1], 0x1_0000);
    ValBound(u[w..w + n + 1], 0x1_0000);
    BorrowMeansOneTooLarge(sv, vv, qhat, quo, rem, left, span, HHalf(t) != 0);
    qd := qhat;
    if HHalf(t) != 0 {
      qd := qd - 1;
      ghost var carry := AddBack(u, w, v, vo, n);
      ValBound(u[w..w + n + 1], 0x1_0000);
    }
  }

  /** D3 on the window u[w..w+n]: a digit that is the true one or one more; the first one tried is at most two more. */
  method Estimate(u: array<Word>, w: nat, v: array<Word>, vo: nat, n: nat)
    returns (qhat: Word, ghost first: nat, ghost quo: nat, ghost rem: nat)
    requires n >= 2 && w + n < u.Length && vo + n < v.Length
    requires DigitArray(u) && DigitArray(v)
    requires v[vo + 1] >= 0x8000
    requires Val(u[w..w + n], 0x1_0000) < Val(v[vo + 1..vo + n + 1], 0x1_0000)
    ensures qhat < 0x1_0000
    ensures first == TriedFirst(u[w], u[w + 1], v[vo + 1])
    ensures quo <= qhat <= first <= quo + 2 && qhat <= quo + 1
    ensures Val(u[w..w + n + 1], 0x1_0000) == quo * Val(v[vo + 1..vo + n + 1], 0x1_0000) + rem
    ensures rem < Val(v[vo + 1..vo + n + 1], 0x1_0000)
  {
    hide Val, Pow, Settled, TriedFirst;
    ghost var s: seq<int> := u[w..w + n + 1];
    ghost var vs: seq<int> := v[vo + 1..vo + n + 1];
    assert s[..n] == u[w..w + n];
    WindowFits(s, vs);
    ghost var rhat, corrections;
    qhat, first, rhat, corrections := TrialDigit(v[vo + 1], v[vo + 2], u[w], u[w + 1], u[w + 2]);
    assert s[0] == u[w] && s[1] == u[w + 1] && s[2] == u[w + 2] && vs[0] == v[vo + 1] && vs[1] == v[vo + 2];
    quo, rem := TrialForWindow(s, vs, first, qhat, rhat);
  }

  /**
   * One round of D3 to D6: the digit is the quotient of the window u[w..w+n] by the divisor
   * v[1..n], and the window keeps the remainder.
   */
  method DivideStep(u: array<Word>, w: nat, v: array<Word>, vo: nat, n: nat) returns (qd: Word)
    requires u != v
    requires n >= 2 && w + n < u.Length && vo + n < v.Length
    requires DigitArray(u) && DigitArray(v)
    requires v[vo + 1] >= 0x8000
    requires Val(u[w..w + n], 0x1_0000) < Val(v[vo + 1..vo + n + 1], 0x1_0000)
    modifies u
    ensures DigitArray(u)
    ensures forall k :: 0 <= k < u.Length && !(w <= k <= w + n) ==> u[k] == old(u[k])
    ensures qd < 0x1_0000
    ensures Val(old(u[w..w + n + 1]), 0x1_0000)
         == qd * Val(v[vo + 1..vo + n + 1], 0x1_0000) + Val(u[w..w + n + 1], 0x1_0000)
    ensures 0 <= Val(u[w..w + n + 1], 0x1_0000) < Val(v[vo + 1..vo + n + 1], 0x1_0000)
  {
    var qhat, first, quo, rem := Estimate(u, w, v, vo, n);
    qd := TakeDigit(u, w, v, vo, n, qhat, quo, rem);
  }
}

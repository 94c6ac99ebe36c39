/** The digit loop D2 to D7 of Program D (standalone/qdivrem.c), for any number of digits. */
module LongDivision {
  import opened Bits
  import opened Digits
  import opened ProgramD

  /** x followed by k zero digits. */
  ghost function Scaled(x: int, k: nat): int
    decreases k
  {
    if k == 0 then x else Scaled(x * 0x1_0000, k - 1)
  }

  lemma {:induction false} ScaledAdd(x: int, y: int, k: nat)
    ensures Scaled(x + y, k) == Scaled(x, k) + Scaled(y, k)
    decreases k
  {
    if k > 0 {
      ScaledAdd(x * 0x1_0000, y * 0x1_0000, k - 1);
    }
  }

  lemma {:induction false} ScaledByPow(x: int, k: nat)
    ensures Scaled(x, k) == x * Pow(0x1_0000, k)
    decreases k
  {
    if k > 0 {
      ScaledByPow(x * 0x1_0000, k - 1);
      MulAssoc(x, 0x1_0000, Pow(0x1_0000, k - 1));
    }
  }

  /** The number with digits qs, times v. */
  ghost function Times(qs: seq<int>, v: int): int
  {
    if qs == [] then 0 else Times(qs[..|qs| - 1], v) * 0x1_0000 + qs[|qs| - 1] * v
  }

  lemma {:induction false} TimesValue(qs: seq<int>, v: int)
    ensures Times(qs, v) == Val(qs, 0x1_0000) * v
  {
    if qs != [] {
      var init := qs[..|qs| - 1];
      TimesValue(init, v);
      MulDistrib(Val(init, 0x1_0000) * 0x1_0000, qs[|qs| - 1], v);
      MulAssoc(0x1_0000, Val(init, 0x1_0000), v);
    }
  }

  /**
   * After j quotient digits qs, the first j digits of the dividend space a are zero, the digits
   * in front of the next window are below the divisor, and quotient so far times divisor plus
   * what is left in a make up the dividend.
   */
  ghost predicate Divided(a: seq<int>, qs: seq<int>, dividend: int, v: int, n: nat, m: nat)
  {
    var j := |qs|;
    && |a| == m + n + 1
    && j <= m + 1
    && (forall k :: 0 <= k < j ==> a[k] == 0)
    && Val(a[j..j + n], 0x1_0000) < v
    && dividend == Scaled(Times(qs, v), m + 1 - j) + Val(a[j..], 0x1_0000)
  }

  lemma LeadingZero(win: seq<int>, v: int, n: nat)
    requires |win| == n + 1
    requires AllDigits(win, 0x1_0000)
    requires Val(win, 0x1_0000) < v < Pow(0x1_0000, n)
    ensures win[0] == 0
    ensures Val(win[1..], 0x1_0000) == Val(win, 0x1_0000)
  {
    ValLeading(win, 0x1_0000);
    if win[0] >= 1 {
      MulMono(1, win[0], Pow(0x1_0000, n));
      assert false;
    }
    assert win == [win[0]] + win[1..];
    ValLeadingZeros([win[0]], win[1..], 0x1_0000);
  }

  /** Replacing the window at j by a value below v < B^n clears its first digit. */
  lemma WindowReplaced(a: seq<int>, a': seq<int>, j: nat, n: nat, v: int)
    requires |a| == |a'| && j + n < |a|
    requires AllDigits(a', 0x1_0000)
    requires forall k :: 0 <= k < |a| && !(j <= k <= j + n) ==> a'[k] == a[k]
    requires Val(a'[j..j + n + 1], 0x1_0000) < v < Pow(0x1_0000, n)
    ensures a'[j] == 0
    ensures Val(a'[j + 1..j + 1 + n], 0x1_0000) == Val(a'[j..j + n + 1], 0x1_0000)
    ensures Val(a[j..], 0x1_0000) - Scaled(Val(a[j..j + n + 1], 0x1_0000), |a| - n - 1 - j)
         == Val(a'[j + 1..], 0x1_0000) - Scaled(Val(a'[j..j + n + 1], 0x1_0000), |a| - n - 1 - j)
  {
    hide Val, Pow, Scaled;
    var win, win' := a[j..j + n + 1], a'[j..j + n + 1];
    var rest := a[j + n + 1..];
    assert a[j..] == win + rest && a'[j..] == win' + rest;
    ValConcat(win, rest, 0x1_0000);
    ValConcat(win', rest, 0x1_0000);
    ScaledByPow(Val(win, 0x1_0000), |rest|);
    ScaledByPow(Val(win', 0x1_0000), |rest|);
    LeadingZero(win', v, n);
    assert win'[0] == a'[j] && win'[1..] == a'[j + 1..j + 1 + n];
    assert a'[j..] == [a'[j]] + a'[j + 1..];
    ValLeadingZeros([a'[j]], a'[j + 1..], 0x1_0000);
  }

  /** One more digit: the window loses qd divisors. */
  lemma DividedStep(a: seq<int>, a': seq<int>, qs: seq<int>, qd: int, dividend: int, v: int, n: nat, m: nat)
    requires Divided(a, qs, dividend, v, n, m)
    requires |qs| <= m
    requires AllDigits(a', 0x1_0000)
    requires v < Pow(0x1_0000, n)
    requires |a'| == |a|
    requires var j := |qs|;
             && (forall k :: 0 <= k < |a| && !(j <= k <= j + n) ==> a'[k] == a[k])
             && Val(a[j..j + n + 1], 0x1_0000) == qd * v + Val(a'[j..j + n + 1], 0x1_0000)
             && Val(a'[j..j + n + 1], 0x1_0000) < v
    ensures Divided(a', qs + [qd], dividend, v, n, m)
  {
    hide Val, Pow;
    var j := |qs|;
    var w, w' := Val(a[j..j + n + 1], 0x1_0000), Val(a'[j..j + n + 1], 0x1_0000);
    WindowReplaced(a, a', j, n, v);
    assert (qs + [qd])[..j] == qs;
    var t, t' := Times(qs, v), Times(qs + [qd], v);
    assert t' == t * 0x1_0000 + qd * v;
    ScaledAdd(t * 0x1_0000, qd * v, m - j);
    ScaledAdd(qd * v, w', m - j);
  }

  /** One round on the whole array us, whose dividend space starts at o. */
  lemma RoundStep(us: seq<int>, us': seq<int>, o: nat, qs: seq<int>, qd: int, dividend: int, v: int, n: nat, m: nat)
    requires o + m + n < |us| == |us'|
    requires Divided(us[o..o + m + n + 1], qs, dividend, v, n, m)
    requires |qs| <= m
    requires AllDigits(us', 0x1_0000)
    requires v < Pow(0x1_0000, n)
    requires var w := o + |qs|;
             && (forall k :: 0 <= k < |us| && !(w <= k <= w + n) ==> us'[k] == us[k])
             && Val(us[w..w + n + 1], 0x1_0000) == qd * v + Val(us'[w..w + n + 1], 0x1_0000)
             && Val(us'[w..w + n + 1], 0x1_0000) < v
    ensures Divided(us'[o..o + m + n + 1], qs + [qd], dividend, v, n, m)
  {
    hide Val, Pow, Divided;
    var j := |qs|;
    SliceOfSlice(us, o, o + m + n + 1, j, j + n + 1);
    SliceOfSlice(us', o, o + m + n + 1, j, j + n + 1);
    DividedStep(us[o..o + m + n + 1], us'[o..o + m + n + 1], qs, qd, dividend, v, n, m);
  }

  lemma NextWindow(us: seq<int>, o: nat, qs: seq<int>, dividend: int, v: int, n: nat, m: nat)
    requires o + m + n < |us|
    requires Divided(us[o..o + m + n + 1], qs, dividend, v, n, m)
    requires |qs| <= m
    ensures Val(us[o + |qs|..o + |qs| + n], 0x1_0000) < v
  {
    SliceOfSlice(us, o, o + m + n + 1, |qs|, |qs| + n);
  }

  /** Before the first round. */
  lemma DividedStart(us: seq<int>, o: nat, v: int, n: nat, m: nat)
    requires o + m + n < |us|
    requires Val(us[o..o + n], 0x1_0000) < v
    ensures Divided(us[o..o + m + n + 1], [], Val(us[o..o + m + n + 1], 0x1_0000), v, n, m)
  {
    var a := us[o..o + m + n + 1];
    assert a[0..n] == us[o..o + n] && a[0..] == a;
    ScaledByPow(0, m + 1);
  }

  /** D3 to D7 for one digit. */
  method DivideRound(u: array<Word>, uo: nat, v: array<Word>, vo: nat, j: nat, m: nat, n: nat,
                     ghost qs: seq<int>, ghost dividend: int, ghost vv: int)
    returns (qd: Word)
    requires u != v
    requires n >= 2 && uo + m + n < u.Length && vo + n < v.Length
    requires DigitArray(u) && DigitArray(v)
    requires v[vo + 1] >= 0x8000
    requires vv == Val(v[vo + 1..vo + n + 1], 0x1_0000)
    requires |qs| == j <= m
    requires Divided(u[uo..uo + m + n + 1], qs, dividend, vv, n, m)
    modifies u
    ensures DigitArray(u)
    ensures forall k :: 0 <= k < u.Length && !(uo <= k <= uo + m + n) ==> u[k] == old(u[k])
    ensures qd < 0x1_0000
    ensures Divided(u[uo..uo + m + n + 1], qs + [qd], dividend, vv, n, m)
  {
    ghost var us: seq<int> := u[..];
    NextWindow(us, uo, qs, dividend, vv, n, m);
    qd := DivideStep(u, uo + j, v, vo, n);
    ghost var us': seq<int> := u[..];
    ValBound(v[vo + 1..vo + n + 1], 0x1_0000);
    RoundStep(us, us', uo, qs, qd, dividend, vv, n, m);
  }

  lemma ScaledNone(x: int)
    ensures Scaled(x, 0) == x
  {
  }

  /** When every quotient digit is there, so are quotient and remainder. */
  lemma DividedEnd(us: seq<int>, o: nat, qs: seq<int>, dividend: int, v: int, n: nat, m: nat)
    requires o + m + n < |us|
    requires AllDigits(us, 0x1_0000)
    requires |qs| == m + 1
    requires Divided(us[o..o + m + n + 1], qs, dividend, v, n, m)
    ensures forall k :: o <= k <= o + m ==> us[k] == 0
    ensures dividend == Val(qs, 0x1_0000) * v + Val(us[o + m + 1..o + m + n + 1], 0x1_0000)
    ensures 0 <= Val(us[o + m + 1..o + m + n + 1], 0x1_0000) < v
  {
    hide Val, Pow, Scaled, Times;
    var a := us[o..o + m + n + 1];
    ScaledNone(Times(qs, v));
    TimesValue(qs, v);
    SliceOfSlice(us, o, o + m + n + 1, m + 1, m + 1 + n);
    assert a[m + 1..] == a[m + 1..m + 1 + n];
    assert forall k :: o <= k <= o + m ==> us[k] == a[k - o];
    ValBound(us[o + m + 1..o + m + n + 1], 0x1_0000);
  }

  /** The loop over the quotient digits. */
  method DigitLoop(u: array<Word>, uo: nat, v: array<Word>, vo: nat, q: array<Word>, qo: nat, m: nat, n: nat,
                   ghost dividend: int, ghost vv: int)
    returns (ghost qs: seq<int>)
    requires u != v && u != q && v != q
    requires n >= 2 && uo + m + n < u.Length && vo + n < v.Length && qo + m < q.Length
    requires DigitArray(u) && DigitArray(v)
    requires v[vo + 1] >= 0x8000
    requires vv == Val(v[vo + 1..vo + n + 1], 0x1_0000)
    requires dividend == Val(u[uo..uo + m + n + 1], 0x1_0000)
    requires Val(u[uo..uo + n], 0x1_0000) < vv
    modifies u, q
    ensures DigitArray(u)
    ensures forall k :: 0 <= k < u.Length && !(uo <= k <= uo + m + n) ==> u[k] == old(u[k])
    ensures forall k :: 0 <= k < q.Length && !(qo <= k <= qo + m) ==> q[k] == old(q[k])
    ensures qs == q[qo..qo + m + 1] && AllDigits(qs, 0x1_0000)
    ensures Divided(u[uo..uo + m + n + 1], qs, dividend, vv, n, m)
  {
    hide Val, Pow, Divided, Scaled, Times;
    qs := [];
    ghost var us: seq<int> := u[..];
    DividedStart(us, uo, vv, n, m);
    var j := 0;
    while j <= m
      invariant 0 <= j <= m + 1
      invariant DigitArray(u)
      invariant forall k :: 0 <= k < u.Length && !(uo <= k <= uo + m + n) ==> u[k] == old(u[k])
      invariant forall k :: 0 <= k < q.Length && !(qo <= k < qo + j) ==> q[k] == old(q[k])
      invariant qs == q[qo..qo + j] && AllDigits(qs, 0x1_0000)
      invariant us == u[..]
      invariant Divided(us[uo..uo + m + n + 1], qs, dividend, vv, n, m)
    {
      var qd := DivideRound(u, uo, v, vo, j, m, n, qs, dividend, vv);
      us := u[..];
      q[qo + j] := qd;
      qs := qs + [qd];
      j := j + 1;
    }
  }

  /**
   * D2 to D7: divide u[uo..uo+m+n] by v[1..n] digit by digit. The quotient has the m + 1 digits
   * q[qo..qo+m] and the remainder is left in the last n digits of u, the others being zero.
   */
  method DivideDigits(u: array<Word>, uo: nat, v: array<Word>, vo: nat, q: array<Word>, qo: nat, m: nat, n: nat,
                      ghost dividend: int, ghost vv: int)
    requires u != v && u != q && v != q
    requires n >= 2 && uo + m + n < u.Length && vo + n < v.Length && qo + m < q.Length
    requires DigitArray(u) && DigitArray(v)
    requires v[vo + 1] >= 0x8000
    requires vv == Val(v[vo + 1..vo + n + 1], 0x1_0000)
    requires dividend == Val(u[uo..uo + m + n + 1], 0x1_0000)
    requires Val(u[uo..uo + n], 0x1_0000) < vv
    modifies u, q
    ensures DigitArray(u)
    ensures forall k :: 0 <= k < u.Length && !(uo <= k <= uo + m + n) ==> u[k] == old(u[k])
    ensures forall k :: uo <= k <= uo + m ==> u[k] == 0
    ensures forall k :: 0 <= k < q.Length && !(qo <= k <= qo + m) ==> q[k] == old(q[k])
    ensures forall k :: qo <= k <= qo + m ==> q[k] < 0x1_0000
    ensures dividend == Val(q[qo..qo + m + 1], 0x1_0000) * vv + Val(u[uo + m + 1..uo + m + n + 1], 0x1_0000)
    ensures 0 <= Val(u[uo + m + 1..uo + m + n + 1], 0x1_0000) < vv
  {
    hide Val, Pow, Divided;
    ghost var qs := DigitLoop(u, uo, v, vo, q, qo, m, n, dividend, vv);
    DividedEnd(u[..], uo, qs, dividend, vv, n, m);
    assert qs == q[qo..qo + m + 1];
  }
}

/** Steps D4 to D6 of Program D on in-place digit arrays (standalone/qdivrem.c). */
module DivisionStep {
  import opened Bits
  import opened Digits
  import opened HalfWords

  /** The borrow out of a digit whose wrapped difference is t. */
  function Borrow(t: Word): (b: Word)
    ensures b < 0x1_0000
  {
    LHalf(0x1_0000 - HHalf(t))
  }

  lemma WrapTo(x: int, w: Word)
    requires x == w || x == w - 0x1_0000_0000
    ensures Wrap(x) == w
  {
  }

  lemma Halves(x: Word)
    ensures x == HHalf(x) * 0x1_0000 + LHalf(x)
  {
  }

  lemma LowHalf(x: Word)
    ensures x < 0x1_0000 ==> LHalf(x) == x
    ensures LHalf(0x1_0000) == 0
  {
  }

  /** One digit of the wrapping multiply-subtract: the word keeps the difference exactly. */
  lemma BorrowDigit(x: Word, prod: Word, t: Word)
    requires x < 0x1_0000 && t < 0x1_0000
    requires prod <= 0xFFFE_0001
    ensures var d := Wrap(x - prod - t);
            x - prod - t == LHalf(d) - Borrow(d) * 0x1_0000
  {
    hide Wrap, LHalf, HHalf;
    var y := x - prod - t;
    var d := if y >= 0 then y else y + 0x1_0000_0000;
    WrapTo(y, d);
    Halves(d);
    LowHalf(0x1_0000 - HHalf(d));
  }

  lemma TopBorrow(x: Word, t: Word)
    requires x < 0x1_0000 && t < 0x1_0000
    ensures var d := Wrap(x - t);
            if x >= t then HHalf(d) == 0 && LHalf(d) == x - t else HHalf(d) != 0 && LHalf(d) == x - t + 0x1_0000
  {
  }

  /** Extending the partial difference by one digit of weight p. */
  lemma SubtractStep(tail: int, stail: int, vtail: int, t: int, p: int, low: int, b: int, x: int, vd: int, qhat: int)
    requires tail == stail - qhat * vtail + t * p
    requires x - vd * qhat - t == low - b * 0x1_0000
    ensures low * p + tail == (x * p + stail) - qhat * (vd * p + vtail) + b * (0x1_0000 * p)
  {
    calc {
      low * p - (b * 0x1_0000) * p;
      (low - b * 0x1_0000) * p;
      (x - vd * qhat - t) * p;
      x * p - (vd * qhat) * p - t * p;
    }
    MulAssoc(b, 0x1_0000, p);
    assert (vd * qhat) * p == qhat * (vd * p);
    assert qhat * (vd * p + vtail) == qhat * (vd * p) + qhat * vtail;
  }

  /** The digits of a suffix, one longer. */
  lemma SuffixValue(s: seq<int>, i: nat)
    requires i < |s|
    ensures Val(s[i..], 0x1_0000) == s[i] * Pow(0x1_0000, |s| - i - 1) + Val(s[i + 1..], 0x1_0000)
  {
    assert s[i..] == [s[i]] + s[i + 1..];
    ValCons(s[i], s[i + 1..], 0x1_0000);
  }

  /** Below position i, the window a holds s minus qhat times vs, with the borrow t left to take. */
  ghost predicate Subtracted(a: seq<int>, s: seq<int>, vs: seq<int>, i: nat, qhat: int, t: int)
  {
    && |a| == |s| == |vs| + 1
    && i <= |vs|
    && Val(a[i + 1..], 0x1_0000)
       == Val(s[i + 1..], 0x1_0000) - qhat * Val(vs[i..], 0x1_0000) + t * Pow(0x1_0000, |vs| - i)
  }

  lemma SubtractedStart(s: seq<int>, vs: seq<int>, qhat: int)
    requires |s| == |vs| + 1
    ensures Subtracted(s, s, vs, |vs|, qhat, 0)
  {
    assert s[|vs| + 1..] == [] && vs[|vs|..] == [];
  }

  lemma SubtractedStep(a: seq<int>, s: seq<int>, vs: seq<int>, i: nat, qhat: int, t: int, low: int, b: int)
    requires i > 0
    requires Subtracted(a, s, vs, i, qhat, t)
    requires s[i] - vs[i - 1] * qhat - t == low - b * 0x1_0000
    ensures Subtracted(a[i := low], s, vs, i - 1, qhat, b)
  {
    var p := Pow(0x1_0000, |vs| - i);
    var a' := a[i := low];
    assert a'[i + 1..] == a[i + 1..];
    SuffixValue(a', i);
    SuffixValue(s, i);
    SuffixValue(vs, i - 1);
    SubtractStep(Val(a[i + 1..], 0x1_0000), Val(s[i + 1..], 0x1_0000), Val(vs[i..], 0x1_0000), t, p, low, b, s[i],
                 vs[i - 1], qhat);
    assert Pow(0x1_0000, |vs| - (i - 1)) == 0x1_0000 * p;
  }

  lemma TopStep(low: int, x: int, t: int, p: int, tail: int, stail: int, product: int, borrow: bool)
    requires low == x - t + (if borrow then 0x1_0000 else 0)
    requires tail == stail - product + t * p
    ensures low * p + tail == x * p + stail - product + (if borrow then 0x1_0000 * p else 0)
  {
    MulDistrib(x, -t, p);
    MulDistrib(x - t, 0x1_0000, p);
  }

  /** The leading digit has no divisor digit against it; it takes the last borrow. */
  lemma SubtractedTop(a: seq<int>, s: seq<int>, vs: seq<int>, qhat: int, t: int, low: int, borrow: bool)
    requires Subtracted(a, s, vs, 0, qhat, t)
    requires low == s[0] - t + (if borrow then 0x1_0000 else 0)
    ensures Val(a[0 := low], 0x1_0000)
         == Val(s, 0x1_0000) - qhat * Val(vs, 0x1_0000) + (if borrow then Pow(0x1_0000, |s|) else 0)
  {
    var p := Pow(0x1_0000, |vs|);
    var a' := a[0 := low];
    assert vs[0..] == vs;
    assert a' == [low] + a[1..] && s == [s[0]] + s[1..];
    ValCons(low, a[1..], 0x1_0000);
    ValCons(s[0], s[1..], 0x1_0000);
    TopStep(low, s[0], t, p, Val(a[1..], 0x1_0000), Val(s[1..], 0x1_0000), qhat * Val(vs, 0x1_0000), borrow);
    assert Pow(0x1_0000, |s|) == 0x1_0000 * p;
  }

  method SubtractDigit(u: array<Word>, k: nat, vd: Word, qhat: Word, t: Word) returns (t': Word)
    requires k < u.Length
    requires DigitArray(u) && vd < 0x1_0000 && qhat < 0x1_0000 && t < 0x1_0000
    modifies u
    ensures t' < 0x1_0000
    ensures u[k] < 0x1_0000
    ensures forall j :: 0 <= j < u.Length && j != k ==> u[j] == old(u[j])
    ensures old(u[k]) - vd * qhat - t == u[k] - t' * 0x1_0000
  {
    ProductFits(vd, qhat);
    BorrowDigit(u[k], vd * qhat, t);
    var d := Wrap(u[k] - vd * qhat - t);
    u[k] := LHalf(d);
    t' := Borrow(d);
  }

  /** The loop of D4 over the digits n down to 1; the result is the last borrow. */
  method SubtractLoop(u: array<Word>, w: nat, v: array<Word>, vo: nat, n: nat, qhat: Word, ghost s: seq<int>,
                      ghost vs: seq<int>)
    returns (t: Word)
    requires u != v
    requires w + n < u.Length && vo + n < v.Length
    requires DigitArray(u) && DigitArray(v) && qhat < 0x1_0000
    requires s == u[w..w + n + 1] && vs == v[vo + 1..vo + n + 1]
    modifies u
    ensures DigitArray(u)
    ensures forall k :: 0 <= k < u.Length && !(w < k <= w + n) ==> u[k] == old(u[k])
    ensures t < 0x1_0000
    ensures Subtracted(u[w..w + n + 1], s, vs, 0, qhat, t)
  {
    hide Subtracted;
    ghost var a := s;
    t := 0;
    var i := n;
    SubtractedStart(s, vs, qhat);
    while i > 0
      invariant 0 <= i <= n
      invariant t < 0x1_0000
      invariant DigitArray(u)
      invariant forall k :: 0 <= k < u.Length && !(w + i < k <= w + n) ==> u[k] == old(u[k])
      invariant a == u[w..w + n + 1]
      invariant Subtracted(a, s, vs, i, qhat, t)
    {
      ghost var t0 := t;
      t := SubtractDigit(u, w + i, v[vo + i], qhat, t);
      SubtractedStep(a, s, vs, i, qhat, t0, u[w + i], t);
      a := a[i := u[w + i]];
      i := i - 1;
    }
  }

  /**
   * D4: subtract qhat times v[1..n] from the window u[0..n] (n + 1 digits), modulo B^(n+1).
   * The upper half of the result is nonzero exactly when there is a borrow.
   */
  method MultiplySubtract(u: array<Word>, w: nat, v: array<Word>, vo: nat, n: nat, qhat: Word) returns (t: Word)
    requires u != v
    requires w + n < u.Length && vo + n < v.Length
    requires DigitArray(u) && DigitArray(v) && qhat < 0x1_0000
    modifies u
    ensures DigitArray(u)
    ensures forall k :: 0 <= k < u.Length && !(w <= k <= w + n) ==> u[k] == old(u[k])
    ensures Val(u[w..w + n + 1], 0x1_0000)
         == Val(old(u[w..w + n + 1]), 0x1_0000) - qhat * Val(v[vo + 1..vo + n + 1], 0x1_0000)
            + (if HHalf(t) != 0 then Pow(0x1_0000, n + 1) else 0)
  {
    ghost var s: seq<int> := u[w..w + n + 1];
    ghost var vs: seq<int> := v[vo + 1..vo + n + 1];
    t := SubtractLoop(u, w, v, vo, n, qhat, s, vs);
    ghost var a: seq<int> := u[w..w + n + 1];
    TopBorrow(u[w], t);
    ghost var t0 := t;
    t := Wrap(u[w] - t);
    u[w] := LHalf(t);
    SubtractedTop(a, s, vs, qhat, t0, u[w], HHalf(t) != 0);
    assert u[w..w + n + 1] == a[0 := u[w]];
  }

  /** Below position i, the window a holds s plus vs, with the carry t left to add. */
  ghost predicate Added(a: seq<int>, s: seq<int>, vs: seq<int>, i: nat, t: int)
  {
    && |a| == |s| == |vs| + 1
    && i <= |vs|
    && Val(a[i + 1..], 0x1_0000) + t * Pow(0x1_0000, |vs| - i)
       == Val(s[i + 1..], 0x1_0000) + Val(vs[i..], 0x1_0000)
  }

  lemma AddedStart(s: seq<int>, vs: seq<int>)
    requires |s| == |vs| + 1
    ensures Added(s, s, vs, |vs|, 0)
  {
    assert s[|vs| + 1..] == [] && vs[|vs|..] == [];
  }

  /** Extending the partial sum by one digit of weight p. */
  lemma AddStep(tail: int, stail: int, vtail: int, t: int, p: int, low: int, c: int, x: int, vd: int)
    requires tail + t * p == stail + vtail
    requires x + vd + t == low + c * 0x1_0000
    ensures low * p + tail + c * (0x1_0000 * p) == (x * p + stail) + (vd * p + vtail)
  {
    MulAssoc(c, 0x1_0000, p);
    calc {
      low * p + (c * 0x1_0000) * p;
      { MulDistrib(low, c * 0x1_0000, p); }
      (low + c * 0x1_0000) * p;
      (x + vd + t) * p;
      { MulDistrib(x + vd, t, p); MulDistrib(x, vd, p); }
      x * p + vd * p + t * p;
    }
  }

  lemma AddedStep(a: seq<int>, s: seq<int>, vs: seq<int>, i: nat, t: int, low: int, c: int)
    requires i > 0
    requires Added(a, s, vs, i, t)
    requires s[i] + vs[i - 1] + t == low + c * 0x1_0000
    ensures Added(a[i := low], s, vs, i - 1, c)
  {
    var p := Pow(0x1_0000, |vs| - i);
    var a' := a[i := low];
    assert a'[i + 1..] == a[i + 1..];
    SuffixValue(a', i);
    SuffixValue(s, i);
    SuffixValue(vs, i - 1);
    AddStep(Val(a[i + 1..], 0x1_0000), Val(s[i + 1..], 0x1_0000), Val(vs[i..], 0x1_0000), t, p, low, c, s[i],
            vs[i - 1]);
    assert Pow(0x1_0000, |vs| - (i - 1)) == 0x1_0000 * p;
  }

  lemma TopAdd(low: int, x: int, t: int, p: int, carry: bool)
    requires low == x + t - (if carry then 0x1_0000 else 0)
    ensures low * p == x * p + t * p - (if carry then 0x1_0000 * p else 0)
  {
    MulDistrib(x, t, p);
    MulDistrib(x + t, -0x1_0000, p);
  }

  /** The leading digit takes the last carry; a carry out of it is lost. */
  lemma AddedTop(a: seq<int>, s: seq<int>, vs: seq<int>, t: int, low: int, carry: bool)
    requires Added(a, s, vs, 0, t)
    requires low == s[0] + t - (if carry then 0x1_0000 else 0)
    ensures Val(a[0 := low], 0x1_0000)
         == Val(s, 0x1_0000) + Val(vs, 0x1_0000) - (if carry then Pow(0x1_0000, |s|) else 0)
  {
    var p := Pow(0x1_0000, |vs|);
    assert vs[0..] == vs;
    assert a[0 := low] == [low] + a[1..] && s == [s[0]] + s[1..];
    ValCons(low, a[1..], 0x1_0000);
    ValCons(s[0], s[1..], 0x1_0000);
    TopAdd(low, s[0], t, p, carry);
    assert Pow(0x1_0000, |s|) == 0x1_0000 * p;
  }

  /** The loop of D6 over the digits n down to 1; the result is the last carry. */
  method AddLoop(u: array<Word>, w: nat, v: array<Word>, vo: nat, n: nat, ghost s: seq<int>, ghost vs: seq<int>)
    returns (t: Word)
    requires u != v
    requires w + n < u.Length && vo + n < v.Length
    requires DigitArray(u) && DigitArray(v)
    requires s == u[w..w + n + 1] && vs == v[vo + 1..vo + n + 1]
    modifies u
    ensures DigitArray(u)
    ensures forall k :: 0 <= k < u.Length && !(w < k <= w + n) ==> u[k] == old(u[k])
    ensures t <= 1
    ensures Added(u[w..w + n + 1], s, vs, 0, t)
  {
    ghost var a := s;
    t := 0;
    var i := n;
    AddedStart(s, vs);
    while i > 0
      invariant 0 <= i <= n
      invariant t <= 1
      invariant DigitArray(u)
      invariant forall k :: 0 <= k < u.Length && !(w + i < k <= w + n) ==> u[k] == old(u[k])
      invariant a == u[w..w + n + 1]
      invariant Added(a, s, vs, i, t)
    {
      ghost var t0 := t;
      t := t + (u[w + i] + v[vo + i]);
      u[w + i] := LHalf(t);
      t := HHalf(t);
      AddedStep(a, s, vs, i, t0, u[w + i], t);
      a := a[i := u[w + i]];
      i := i - 1;
    }
  }

  /** D6: add v[1..n] back to the window u[0..n], losing any carry out of it. */
  method AddBack(u: array<Word>, w: nat, v: array<Word>, vo: nat, n: nat) returns (ghost carry: bool)
    requires u != v
    requires w + n < u.Length && vo + n < v.Length
    requires DigitArray(u) && DigitArray(v)
    modifies u
    ensures DigitArray(u)
    ensures forall k :: 0 <= k < u.Length && !(w <= k <= w + n) ==> u[k] == old(u[k])
    ensures Val(u[w..w + n + 1], 0x1_0000)
         == Val(old(u[w..w + n + 1]), 0x1_0000) + Val(v[vo + 1..vo + n + 1], 0x1_0000)
            - (if carry then Pow(0x1_0000, n + 1) else 0)
  {
    ghost var s: seq<int> := u[w..w + n + 1];
    ghost var vs: seq<int> := v[vo + 1..vo + n + 1];
    var t := AddLoop(u, w, v, vo, n, s, vs);
    ghost var a: seq<int> := u[w..w + n + 1];
    carry := u[w] + t >= 0x1_0000;
    u[w] := LHalf(u[w] + t);
    AddedTop(a, s, vs, t, u[w], carry);
    assert u[w..w + n + 1] == a[0 := u[w]];
  }
}

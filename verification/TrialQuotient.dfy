/** Step D3 of Program D: estimating a quotient digit (standalone/qdivrem.c). */
module TrialQuotient {
  import opened Bits
  import opened HalfWords
  import opened KnuthD

  lemma QuotientDigit(w: nat, v: nat)
    requires w < v * 0x1_0000
    ensures v > 0
    ensures 0 <= w / v < 0x1_0000
    ensures (w / v) * v + w % v == w
  {
    var q := w / v;
    if q >= 0x1_0000 {
      MulMono(0x1_0000, q, v);
      assert false;
    }
  }

  /** The product x*q as repeated addition, which is how the loop of step D3 changes it. */
  ghost function Repeated(x: nat, q: nat): nat
  {
    if q == 0 then 0 else Repeated(x, q - 1) + x
  }

  lemma {:induction false} RepeatedIsProduct(x: nat, q: nat)
    ensures Repeated(x, q) == x * q
  {
    if q > 0 {
      RepeatedIsProduct(x, q - 1);
      MulDistrib(q, -1, x);
    }
  }

  /**
   * The outcome of step D3 for the leading divisor digits v1, v2 and the leading dividend
   * digits nn = u0*B + u1 and u2: the digit q with remainder r passes the test
   * v2*q <= r*B + u2, and it is the first one tried or its successor fails the test.
   */
  ghost predicate Settled(v1: nat, v2: nat, nn: nat, u2: nat, first: nat, q: nat, r: nat)
  {
    && q * v1 + r == nn
    && v2 * q <= r * 0x1_0000 + u2
    && (q == first || v2 * (q + 1) > (r - v1) * 0x1_0000 + u2)
  }

  /** The first digit that step D3 tries, with its middle entry. */
  ghost function TriedFirst(u0: nat, u1: nat, v1: nat): int
    requires v1 > 0
  {
    if u0 == v1 then 0xFFFF else (u0 * 0x1_0000 + u1) / v1
  }

  /** The comparison that step D3 repeats; in range, neither side wraps around. */
  method TrialTest(v2: Word, qhat: Word, rhat: Word, uj2: Word) returns (fails: bool)
    requires v2 < 0x1_0000 && qhat < 0x1_0000 && rhat < 0x1_0000 && uj2 < 0x1_0000
    ensures fails == (v2 * qhat > rhat * 0x1_0000 + uj2)
  {
    ProductFits(v2, qhat);
    fails := Wrap(v2 * qhat) > Combine(rhat, uj2);
  }

  lemma RepeatedFits(x: Word, q: Word)
    requires x < 0x1_0000 && q < 0x1_0000
    ensures Repeated(x, q) <= 0xFFFE_0001
  {
    RepeatedIsProduct(x, q);
    ProductFits(x, q);
  }

  /** The loop leaves the digit settled, in terms of the products it has kept by addition. */
  lemma SettledBy(v1: nat, v2: nat, nn: nat, u2: nat, first: nat, q: nat, r: nat)
    requires Repeated(v1, q) + r == nn && Repeated(v1, q) == v1 * q
    requires Repeated(v2, q) <= r * 0x1_0000 + u2 && Repeated(v2, q) == v2 * q
    requires q == first || Repeated(v2, q + 1) > (r - v1) * 0x1_0000 + u2
    requires Repeated(v2, q + 1) == v2 * (q + 1)
    ensures Settled(v1, v2, nn, u2, first, q, r)
  {
    hide Repeated;
  }

  /** The first trial digit when the leading digits differ. */
  method FirstTrial(v1: Word, uj0: Word, uj1: Word) returns (qhat: Word, rhat: Word)
    requires uj0 < v1 < 0x1_0000 && uj1 < 0x1_0000
    ensures qhat == (uj0 * 0x1_0000 + uj1) / v1
    ensures qhat < 0x1_0000 && rhat < v1
    ensures qhat * v1 + rhat == uj0 * 0x1_0000 + uj1
  {
    var n := Combine(uj0, uj1);
    QuotientDigit(n, v1);
    qhat := n / v1;
    rhat := n % v1;
  }

  /**
   * D3: the trial digit, from the two leading divisor digits and the three leading dividend
   * digits. With equal leading digits the loop is entered past its first test.
   */
  method TrialDigit(v1: Word, v2: Word, uj0: Word, uj1: Word, uj2: Word)
    returns (qhat: Word, ghost first: nat, ghost rhat': nat, ghost corrections: nat)
    requires 0x8000 <= v1 < 0x1_0000 && v2 < 0x1_0000
    requires uj0 <= v1
    requires uj1 < 0x1_0000 && uj2 < 0x1_0000
    ensures qhat < 0x1_0000
    ensures first == TriedFirst(uj0, uj1, v1)
    ensures Settled(v1, v2, uj0 * 0x1_0000 + uj1, uj2, first, qhat, rhat')
    ensures corrections <= 2 && qhat <= first <= qhat + corrections
  {
    hide Settled;
    var rhat: Word;
    var tooBig := uj0 == v1;
    if tooBig {
      qhat := 0x1_0000;
      rhat := uj1;
      first := 0xFFFF;
      RepeatedIsProduct(v1, 0x1_0000);
    } else {
      qhat, rhat := FirstTrial(v1, uj0, uj1);
      RepeatedIsProduct(v1, qhat);
      first := qhat;
    }
    ghost var nn := uj0 * 0x1_0000 + uj1;
    corrections := 0;
    var again := tooBig;
    if !again {
      again := TrialTest(v2, qhat, rhat, uj2);
      RepeatedIsProduct(v2, qhat);
    }
    while again
      invariant qhat + corrections == if tooBig then 0x1_0000 else first
      invariant qhat <= 0x1_0000 && (again ==> rhat < 0x1_0000)
      invariant qhat == 0x1_0000 ==> tooBig && again
      invariant corrections <= 2 && (again ==> corrections == 0 || (corrections == 1 && v1 <= rhat))
      invariant again && qhat < 0x1_0000 ==> Repeated(v2, qhat) > rhat * 0x1_0000 + uj2
      invariant !again ==> rhat >= 0x1_0000 || Repeated(v2, qhat) <= rhat * 0x1_0000 + uj2
      invariant qhat == 0x1_0000 || qhat == first || Repeated(v2, qhat + 1) > (rhat - v1) * 0x1_0000 + uj2
      invariant Repeated(v1, qhat) + rhat == nn
      decreases again, qhat
    {
      qhat := qhat - 1;
      rhat := rhat + v1;
      corrections := corrections + 1;
      if rhat >= 0x1_0000 {
        again := false;
      } else {
        again := TrialTest(v2, qhat, rhat, uj2);
        RepeatedIsProduct(v2, qhat);
      }
    }
    rhat' := rhat;
    RepeatedFits(v2, qhat);
    RepeatedIsProduct(v1, qhat);
    RepeatedIsProduct(v2, qhat);
    RepeatedIsProduct(v2, qhat + 1);
    SettledBy(v1, v2, nn, uj2, first, qhat, rhat);
  }

  /** A divisor of two leading digits and the rest vr, where p is the weight of the second digit. */
  ghost function Divisor(v1: int, v2: int, p: int, vr: int): int
  {
    v1 * (0x1_0000 * p) + v2 * p + vr
  }

  /** A dividend window of three leading digits and the rest ur, on the same scale. */
  ghost function Window(nn: int, u2: int, p: int, ur: int): int
  {
    nn * (0x1_0000 * p) + u2 * p + ur
  }

  /** A digit of weight p and a rest below p stay below the next weight. */
  lemma DigitAndRest(x: nat, p: nat, r: nat)
    requires x < 0x1_0000
    requires r < p
    ensures 0 <= x * p
    ensures x * p + r < 0x1_0000 * p
  {
    MulMono(0, x, p);
    MulMono(x + 1, 0x1_0000, p);
    MulDistrib(x, 1, p);
  }

  /** The leading part of a number, times its weight h, is within one weight of the number. */
  lemma LeadingBounds(x: nat, y: nat, p: nat, r: nat, h: nat)
    requires h == 0x1_0000 * p
    requires y < 0x1_0000 && r < p
    ensures 0 <= x * h <= x * h + y * p + r < (x + 1) * h
  {
    DigitAndRest(y, p, r);
    MulMono(0, x, h);
    MulDistrib(x, 1, h);
  }

  lemma NextIsTooBig(v1: nat, v2: nat, nn: nat, u2: nat, p: nat, vr: nat, ur: nat, q: nat, r: nat)
    requires ur < p
    requires q * v1 + r == nn
    requires (q + 1) * v1 <= nn
    requires v2 * (q + 1) > (r - v1) * 0x1_0000 + u2
    ensures (q + 1) * Divisor(v1, v2, p, vr) > Window(nn, u2, p, ur)
  {
    MulDistrib(q, 1, v1);
    TrialTooBig(0x1_0000, 0x1_0000 * p, p, v1, v2, vr, nn, u2, ur, q + 1, r - v1);
  }

  lemma NotTooSmall(v1: nat, v2: nat, nn: nat, u2: nat, p: nat, vr: nat, ur: nat, first: nat, q: nat, r: nat, quo: nat)
    requires 1 <= v1 && v2 < 0x1_0000 && u2 < 0x1_0000
    requires vr < p && ur < p
    requires quo * Divisor(v1, v2, p, vr) <= Window(nn, u2, p, ur) < Divisor(v1, v2, p, vr) * 0x1_0000
    requires first == 0xFFFF || first == nn / v1
    requires Settled(v1, v2, nn, u2, first, q, r)
    ensures quo <= q
  {
    var h := 0x1_0000 * p;
    var v, w := Divisor(v1, v2, p, vr), Window(nn, u2, p, ur);
    LeadingBounds(v1, v2, p, vr, h);
    LeadingBounds(nn, u2, p, ur, h);
    TrialIsUpperBound(0x1_0000, h, v1, nn, v, w, quo);
    if q != first && quo >= q + 1 {
      assert (q + 1) * v1 <= nn by {
        MulMono(q + 1, quo, v1);
      }
      NextIsTooBig(v1, v2, nn, u2, p, vr, ur, q, r);
      MulMono(q + 1, quo, v);
      assert false;
    }
  }

  /** The digit that step D3 settles on is the true digit or one more. */
  lemma TrialDigitBounds(v1: nat, v2: nat, nn: nat, u2: nat, p: nat, vr: nat, ur: nat, first: nat, q: nat, r: nat)
    requires 1 <= v1 && v2 < 0x1_0000 && u2 < 0x1_0000 && q < 0x1_0000
    requires vr < p && ur < p
    requires 0 <= Window(nn, u2, p, ur) < Divisor(v1, v2, p, vr) * 0x1_0000
    requires first == 0xFFFF || first == nn / v1
    requires Settled(v1, v2, nn, u2, first, q, r)
    ensures Divisor(v1, v2, p, vr) > 0
    ensures Window(nn, u2, p, ur) / Divisor(v1, v2, p, vr) <= q <= Window(nn, u2, p, ur) / Divisor(v1, v2, p, vr) + 1
  {
    var h := 0x1_0000 * p;
    var v, w := Divisor(v1, v2, p, vr), Window(nn, u2, p, ur);
    QuotientDigit(w, v);
    NotTooSmall(v1, v2, nn, u2, p, vr, ur, first, q, r, w / v);
    if q >= 1 {
      TrialIsClose(0x1_0000, h, p, v1, v2, vr, nn, u2, ur, q, r);
      DivLower(w, v, q - 1);
    }
  }
}

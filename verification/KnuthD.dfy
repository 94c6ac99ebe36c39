/**
 * The arithmetic of Program D (Knuth, The Art of Computer Programming, vol. 2,
 * section 4.3.1), for any base b and any divisor length n >= 2.
 *
 * With p = b^(n-2) and h = b^(n-1), the divisor is V = v1*h + v2*p + vr with
 * 0 <= vr < p, and the dividend window is W = nn*h + u2*p + ur with
 * nn = u0*b + u1 and 0 <= ur < p.
 */
module KnuthD {
  import opened Bits

  /** q times the divisor, limb by limb. */
  lemma DivisorTimes(q: int, h: int, p: int, v1: int, v2: int, vr: int)
    ensures q * (v1 * h + v2 * p + vr) == (q * v1) * h + (v2 * q) * p + q * vr
  {
    calc {
      q * (v1 * h + v2 * p + vr);
      q * (v1 * h) + q * (v2 * p) + q * vr;
      { MulAssoc(q, v1, h); MulAssoc(v2, q, p); MulSwap(q, v2, p); }
      (q * v1) * h + (v2 * q) * p + q * vr;
    }
  }

  lemma DivLower(x: nat, d: nat, q: nat)
    requires d >= 1
    requires q * d <= x
    ensures q <= x / d
  {
    if x / d + 1 <= q {
      MulMono(x / d + 1, q, d);
      assert false;
    }
  }

  /** The trial quotient from the two leading digits, at most the largest digit, is never too small. */
  lemma TrialIsUpperBound(b: nat, h: nat, v1: nat, nn: nat, v: nat, w: nat, quo: nat)
    requires v1 >= 1
    requires v1 * h <= v
    requires w < (nn + 1) * h
    requires quo * v <= w < v * b
    ensures quo * v1 <= nn
    ensures quo <= if nn / v1 <= b - 1 then nn / v1 else b - 1
  {
    if quo >= b {
      MulMono(b, quo, v);
    }
    if quo * v1 >= nn + 1 {
      MulMono(nn + 1, quo * v1, h);
      MulAssoc(quo, v1, h);
      MulMono(v1 * h, v, quo);
      assert false;
    }
    DivLower(nn, v1, quo);
  }

  /** While the test of step D3 succeeds, the trial quotient is too large. */
  lemma TrialTooBig(b: nat, h: nat, p: nat, v1: nat, v2: nat, vr: nat, nn: nat, u2: nat, ur: nat, qhat: nat, rhat: nat)
    requires h == b * p
    requires ur < p
    requires qhat * v1 + rhat == nn
    requires v2 * qhat > rhat * b + u2
    ensures qhat * (v1 * h + v2 * p + vr) > nn * h + u2 * p + ur
  {
    DivisorTimes(qhat, h, p, v1, v2, vr);
    MulDistrib(qhat * v1, rhat, h);
    MulMono(rhat * b + u2 + 1, v2 * qhat, p);
    MulDistrib(rhat * b, u2 + 1, p);
    MulDistrib(u2, 1, p);
    MulAssoc(rhat, b, p);
  }

  /** Once the test of step D3 fails, the trial quotient is at most one too large. */
  lemma TrialIsClose(b: nat, h: nat, p: nat, v1: nat, v2: nat, vr: nat, nn: nat, u2: nat, ur: nat, qhat: nat, rhat: nat)
    requires h == b * p
    requires 1 <= qhat <= b
    requires v1 >= 1
    requires vr < p
    requires qhat * v1 + rhat == nn
    requires v2 * qhat <= rhat * b + u2
    ensures (qhat - 1) * (v1 * h + v2 * p + vr) <= nn * h + u2 * p + ur
  {
    var v := v1 * h + v2 * p + vr;
    DivisorTimes(qhat, h, p, v1, v2, vr);
    MulDistrib(qhat * v1, rhat, h);
    MulMono(v2 * qhat, rhat * b + u2, p);
    MulDistrib(rhat * b, u2, p);
    MulAssoc(rhat, b, p);
    MulMono(qhat, b, vr);
    MulMono(vr, p, b);
    MulMono(1, v1, h);
    MulDistrib(qhat, -1, v);
  }

  /** At most two divisors are between the estimate and the dividend. */
  lemma TwoBelow(w: int, qa: int, qv: int, qh: int, a: int, v: int)
    requires qa <= w && qv - qh <= qa && qh <= 2 * a <= 2 * v
    ensures qv - 2 * v <= w
  {
  }

  lemma TheoremBScaled(b: nat, h: nat, a: nat, v: nat, w: nat, qhat: nat, quo: nat)
    requires b * h <= 2 * a
    requires a <= v < a + h
    requires qhat < b
    requires qhat * a <= w < (quo + 1) * v
    ensures qhat <= quo + 2
  {
    MulMono(qhat, b, h);
    MulMono(v - h, a, qhat);
    MulDistrib(v, -(h as int), qhat);
    TwoBelow(w, qhat * a, qhat * v, qhat * h, a, v);
    if qhat >= quo + 3 {
      MulMono(quo + 1, qhat - 2, v);
      MulDistrib(qhat, -2, v);
      assert false;
    }
  }

  /** Theorem B of section 4.3.1: with v1 >= b/2 the first trial quotient is at most two too large. */
  lemma TheoremB(b: nat, h: nat, v1: nat, nn: nat, v: nat, w: nat, qhat: nat, quo: nat)
    requires 2 * v1 >= b
    requires v1 * h <= v < v1 * h + h
    requires qhat < b
    requires qhat * v1 <= nn
    requires nn * h <= w < (quo + 1) * v
    ensures qhat <= quo + 2
  {
    MulMono(qhat * v1, nn, h);
    MulAssoc(qhat, v1, h);
    MulMono(b, 2 * v1, h);
    MulAssoc(2, v1, h);
    TheoremBScaled(b, h, v1 * h, v, w, qhat, quo);
  }
}

/** Numbers written as digit sequences, most significant digit first. */
module Digits {
  import opened Bits

  ghost predicate AllDigits(s: seq<int>, b: nat)
  {
    forall i :: 0 <= i < |s| ==> 0 <= s[i] < b
  }

  /** Every word of the array is a digit in base 2^16. */
  ghost predicate DigitArray(a: array<Word>)
    reads a
  {
    forall k :: 0 <= k < a.Length ==> a[k] < 0x1_0000
  }

  lemma SliceOfSlice<T>(s: seq<T>, lo: nat, hi: nat, i: nat, j: nat)
    requires lo <= hi <= |s|
    requires i <= j <= hi - lo
    ensures s[lo..hi][i..j] == s[lo + i..lo + j]
  {
    var t, u := s[lo..hi][i..j], s[lo + i..lo + j];
    assert forall k :: 0 <= k < |t| ==> t[k] == u[k];
  }

  /** The number that the digits s denote in base b. */
  ghost function Val(s: seq<int>, b: nat): int
  {
    if s == [] then 0 else Val(s[..|s| - 1], b) * b + s[|s| - 1]
  }

  lemma ValSnoc(s: seq<int>, x: int, b: nat)
    ensures Val(s + [x], b) == Val(s, b) * b + x
  {
    assert (s + [x])[..|s|] == s;
  }

  lemma {:induction false} ValConcat(s: seq<int>, t: seq<int>, b: nat)
    ensures Val(s + t, b) == Val(s, b) * Pow(b, |t|) + Val(t, b)
  {
    if t == [] {
      assert s + t == s;
    } else {
      var t', x := t[..|t| - 1], t[|t| - 1];
      assert s + t == (s + t') + [x];
      ValSnoc(s + t', x, b);
      ValConcat(s, t', b);
      MulAssoc(Val(s, b), Pow(b, |t'|), b);
    }
  }

  lemma {:induction false} ValCons(x: int, t: seq<int>, b: nat)
    ensures Val([x] + t, b) == x * Pow(b, |t|) + Val(t, b)
  {
    ValConcat([x], t, b);
    ValSnoc([], x, b);
    assert [] + [x] == [x];
  }

  lemma HornerBound(h: int, p: int, b: nat, x: int)
    requires 0 <= h < p
    requires 0 <= x < b
    ensures 0 <= h * b + x < b * p
  {
    MulMono(0, h, b);
    MulMono(h + 1, p, b);
    MulDistrib(h, 1, b);
  }

  lemma {:induction false} ValBound(s: seq<int>, b: nat)
    requires AllDigits(s, b)
    ensures 0 <= Val(s, b) < Pow(b, |s|)
  {
    if s != [] {
      ValBound(s[..|s| - 1], b);
      HornerBound(Val(s[..|s| - 1], b), Pow(b, |s| - 1), b, s[|s| - 1]);
    }
  }

  lemma {:induction false} ValZeros(s: seq<int>, b: nat)
    requires forall i :: 0 <= i < |s| ==> s[i] == 0
    ensures Val(s, b) == 0
  {
    if s != [] {
      ValZeros(s[..|s| - 1], b);
    }
  }

  /** Zero digits in front change nothing. */
  lemma {:induction false} ValLeadingZeros(z: seq<int>, s: seq<int>, b: nat)
    requires forall i :: 0 <= i < |z| ==> z[i] == 0
    ensures Val(z + s, b) == Val(s, b)
  {
    ValZeros(z, b);
    ValConcat(z, s, b);
  }

  /** A number at most that of its first digit alone, and below that digit plus one. */
  lemma {:induction false} ValLeading(s: seq<int>, b: nat)
    requires |s| > 0
    requires AllDigits(s, b)
    ensures s[0] * Pow(b, |s| - 1) <= Val(s, b) < (s[0] + 1) * Pow(b, |s| - 1)
  {
    assert s == [s[0]] + s[1..];
    ValCons(s[0], s[1..], b);
    ValBound(s[1..], b);
  }
}

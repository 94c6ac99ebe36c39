/**
 * Parsing numbers (standalone/strtoull.c). Section 7.22.1.4 of ISO/IEC 9899:2011, with the
 * space character as the only white space.
 */
module Strtoull {
  import opened Bits
  import opened Memory
  import opened QDivRem

  /** The value of a digit or letter; 36 for any other character, which no base admits. */
  function Digit(c: Byte): nat
  {
    if '0' as int <= c <= '9' as int then c - '0' as int
    else if 'A' as int <= c <= 'Z' as int then c - ('A' as int - 10)
    else if 'a' as int <= c <= 'z' as int then c - ('a' as int - 10)
    else 36
  }

  /** The unbounded value of a text of digits. */
  function Numeral(text: seq<Byte>, base: nat): nat
  {
    if text == [] then 0 else Numeral(text[..|text| - 1], base) * base + Digit(text[|text| - 1])
  }

  /** The first character that is not a space. */
  ghost function SkipSpaces(s: seq<Byte>, i: nat): (r: nat)
    requires Terminated(s, i)
    ensures i <= r < |s| && s[r] != 0x20 && Terminated(s, r)
    ensures forall k :: i <= k < r ==> s[k] == 0x20
    decreases |s| - i
  {
    if s[i] == 0x20 then SkipSpaces(s, i + 1) else i
  }

  /** The end of the maximal run of digits of the base. */
  ghost function DigitsEnd(s: seq<Byte>, i: nat, base: nat): (r: nat)
    requires Terminated(s, i) && base <= 36
    ensures i <= r < |s| && Digit(s[r]) >= base
    ensures forall k :: i <= k < r ==> Digit(s[k]) < base
    decreases |s| - i
  {
    if Digit(s[i]) < base then DigitsEnd(s, i + 1, base) else i
  }

  predicate IsX(c: Byte)
  {
    c == 'x' as int || c == 'X' as int
  }

  /** At i there is 0x or 0X and a hexadecimal digit. */
  ghost predicate HexPrefix(s: seq<Byte>, i: nat)
  {
    i + 2 < |s| && s[i] == '0' as int && IsX(s[i + 1]) && Digit(s[i + 2]) < 16
  }

  /** Where the digits start, their base, and whether there is a minus sign. */
  datatype Head = Head(start: nat, base: int, neg: bool)

  ghost function HeadOf(s: seq<Byte>, base: int): Head
    requires Terminated(s, 0)
  {
    var i := SkipSpaces(s, 0);
    var start := if s[i] == '-' as int || s[i] == '+' as int then i + 1 else i;
    var neg := s[i] == '-' as int;
    if (base == 0 || base == 16) && HexPrefix(s, start) then Head(start + 2, 16, neg)
    else if base == 0 then Head(start, if s[start] == '0' as int then 8 else 10, neg)
    else Head(start, base, neg)
  }

  /** No digit is the NUL character. */
  lemma DigitNotNul(s: seq<Byte>, i: nat, base: nat)
    requires i < |s| && Terminated(s, i) && base <= 36 && Digit(s[i]) < base
    ensures Terminated(s, i + 1)
  {
  }

  lemma HexDigitNotNul(c: Byte)
    requires Digit(c) < 16
    ensures c != 0
  {
  }

  /** Reading the spaces, the sign and the prefix. The current character is c, the next one at i. */
  method ReadHead(s: seq<Byte>, base: int) returns (c: Byte, i: nat, h: Head)
    requires Terminated(s, 0)
    ensures h == HeadOf(s, base)
    ensures Terminated(s, h.start) && i == h.start + 1 <= |s| && c == s[h.start]
  {
    hide Digit;
    c := s[0];
    i := 1;
    while c == 0x20
      invariant 1 <= i <= |s| && c == s[i - 1] && Terminated(s, i - 1)
      invariant SkipSpaces(s, 0) == SkipSpaces(s, i - 1)
      decreases |s| - i
    {
      c := s[i];
      i := i + 1;
    }
    var neg := false;
    if c == '-' as int {
      neg := true;
      c := s[i];
      i := i + 1;
    } else if c == '+' as int {
      c := s[i];
      i := i + 1;
    }
    var radix := base;
    if (base == 0 || base == 16) && c == '0' as int && IsX(s[i]) && Digit(s[i + 1]) < 16 {
      HexDigitNotNul(s[i + 1]);
      c := s[i + 1];
      i := i + 2;
      radix := 16;
    }
    if radix == 0 {
      radix := if c == '0' as int then 8 else 10;
    }
    h := Head(i - 1, radix, neg);
  }

  /** The cutoff test is the test for overflow. */
  lemma CutoffIsOverflow(acc: nat, c: nat, base: nat, max: nat)
    requires 2 <= base && c < base
    ensures acc > max / base || (acc == max / base && c > max % base) <==> acc * base + c > max
  {
    var q := max / base;
    assert max == q * base + max % base;
    if acc < q {
      MulMono(acc + 1, q, base);
      assert (acc + 1) * base == acc * base + base;
    } else if acc > q {
      MulMono(q + 1, acc, base);
      assert (q + 1) * base == q * base + base;
    }
  }

  lemma NumeralSnoc(s: seq<Byte>, i: nat, k: nat, base: nat)
    requires i <= k < |s|
    ensures Numeral(s[i..k + 1], base) == Numeral(s[i..k], base) * base + Digit(s[k])
  {
    assert s[i..k + 1][..k - i] == s[i..k];
  }

  lemma GrowsPast(value: nat, base: nat, c: nat, max: nat)
    requires value > max && base >= 1
    ensures value * base + c > max
  {
    MulMono(1, base, value);
  }

  /** The accumulator holds the value of the digits so far, or there was an overflow. */
  ghost predicate Accumulated(any: int, acc: nat, value: nat, none: bool)
  {
    if any < 0 then value > 0xFFFF_FFFF_FFFF_FFFF && !none
    else acc == value <= 0xFFFF_FFFF_FFFF_FFFF && (any == 0 <==> none)
  }

  lemma FitsQuad(acc: nat, base: nat, d: nat)
    requires acc * base + d <= 0xFFFF_FFFF_FFFF_FFFF
    ensures WrapQuad(acc * base) == acc * base
    ensures WrapQuad(WrapQuad(acc * base) as int + d) == acc * base + d
  {
  }

  /** One more digit. */
  method Accumulate(any: int, acc: Quad, d: nat, base: nat, cutoff: Quad, cutlim: Quad, ghost value: nat,
                    ghost none: bool)
    returns (any': int, acc': Quad)
    requires 2 <= base <= 36 && d < base
    requires cutoff == 0xFFFF_FFFF_FFFF_FFFF / base && cutlim == 0xFFFF_FFFF_FFFF_FFFF % base
    requires Accumulated(any, acc, value, none)
    ensures Accumulated(any', acc', value * base + d, false)
  {
    any', acc' := any, acc;
    CutoffIsOverflow(acc, d, base, 0xFFFF_FFFF_FFFF_FFFF);
    if any < 0 || acc > cutoff || (acc == cutoff && d > cutlim) {
      any' := -1;
      if any < 0 {
        GrowsPast(value, base, d, 0xFFFF_FFFF_FFFF_FFFF);
      }
    } else {
      any' := 1;
      FitsQuad(acc, base, d);
      acc' := WrapQuad(acc * base);
      acc' := WrapQuad(acc' as int + d);
    }
  }

  lemma NumeralNone(base: nat)
    ensures Numeral([], base) == 0
  {
  }

  lemma DigitsEndStep(s: seq<Byte>, i: nat, base: nat)
    requires Terminated(s, i) && base <= 36
    ensures Digit(s[i]) < base ==> Terminated(s, i + 1) && DigitsEnd(s, i, base) == DigitsEnd(s, i + 1, base)
    ensures Digit(s[i]) >= base ==> DigitsEnd(s, i, base) == i
  {
  }

  /** Convert the digits from h.start on. The result any is negative on overflow and zero without digits. */
  method ReadDigits(s: seq<Byte>, first: Byte, next: nat, base: nat, ghost start: nat)
    returns (acc: Quad, any: int, i: nat)
    requires 2 <= base <= 36
    requires Terminated(s, start) && next == start + 1 && first == s[start]
    ensures i == DigitsEnd(s, start, base) + 1
    ensures Accumulated(any, acc, Numeral(s[start..i - 1], base), i - 1 == start)
  {
    hide Digit, DigitsEnd, Numeral;
    var cutoff := UDivDi3(0xFFFF_FFFF_FFFF_FFFF, base);
    var cutlim := UModDi3(0xFFFF_FFFF_FFFF_FFFF, base);
    acc, any, i := 0, 0, next;
    var c := first;
    NumeralNone(base);
    assert s[start..start] == [];
    while true
      invariant start < i <= |s| && c == s[i - 1] && Terminated(s, i - 1)
      invariant DigitsEnd(s, start, base) == DigitsEnd(s, i - 1, base)
      invariant Accumulated(any, acc, Numeral(s[start..i - 1], base), i - 1 == start)
      decreases |s| - i
    {
      var d := Digit(c);
      DigitsEndStep(s, i - 1, base);
      if d >= base {
        break;
      }
      DigitNotNul(s, i - 1, base);
      NumeralSnoc(s, start, i - 1, base);
      any, acc := Accumulate(any, acc, d, base, cutoff, cutlim, Numeral(s[start..i - 1], base), i - 1 == start);
      c := s[i];
      i := i + 1;
    }
  }

  /**
   * What the string s converts to: with a legal base and at least one digit, the value of the
   * maximal run of digits, negated modulo 2^64 after a minus sign, or the largest number when the
   * value does not fit; the end is behind the run. Otherwise zero, and the end is the start.
   */
  ghost function Conversion(s: seq<Byte>, base: int): (Quad, nat)
    requires Terminated(s, 0)
  {
    var h := HeadOf(s, base);
    if 2 <= h.base <= 36 && Terminated(s, h.start) && DigitsEnd(s, h.start, h.base) > h.start then
      var end := DigitsEnd(s, h.start, h.base);
      var value := Numeral(s[h.start..end], h.base);
      (if value > 0xFFFF_FFFF_FFFF_FFFF then 0xFFFF_FFFF_FFFF_FFFF
       else if h.neg then WrapQuad(-(value as int))
       else value, end)
    else (0, 0)
  }

  /** Convert the string s; the base zero finds out the base from the prefix. */
  method Strtoull(s: seq<Byte>, base: int) returns (value: Quad, end: nat)
    requires Terminated(s, 0)
    ensures (value, end) == Conversion(s, base)
  {
    hide HeadOf, Digit, DigitsEnd, Numeral;
    var c, i, h := ReadHead(s, base);
    value, end := 0, 0;
    if h.base < 2 || h.base > 36 {
      return;
    }
    var acc, any;
    acc, any, i := ReadDigits(s, c, i, h.base, h.start);
    NumeralNone(h.base);
    assert s[h.start..h.start] == [];
    if any < 0 {
      acc := 0xFFFF_FFFF_FFFF_FFFF;
    } else if any != 0 && h.neg {
      acc := WrapQuad(-(acc as int));
    }
    value := acc;
    end := if any != 0 then i - 1 else 0;
  }

  /** The digits are 0 to 9, then the letters in either case, and nothing else is one. */
  lemma DigitMeans(c: Byte)
    ensures Digit('0' as int) == 0 && Digit('a' as int) == Digit('A' as int) == 10
    ensures '0' as int <= c < '9' as int || 'a' as int <= c < 'z' as int || 'A' as int <= c < 'Z' as int ==>
              Digit(c + 1) == Digit(c) + 1
    ensures Digit(c) < 36 <==>
              '0' as int <= c <= '9' as int || 'a' as int <= c <= 'z' as int || 'A' as int <= c <= 'Z' as int
  {
  }

  /** A text of digits of the radix. */
  ghost predicate DigitText(t: seq<Byte>, radix: nat)
  {
    forall k :: 0 <= k < |t| ==> Digit(t[k]) < radix
  }

  /**
   * Which prefix, radix and base argument go together: no prefix, when the base is given; 0x or 0X
   * for 16, with base 16 or 0; a zero for 8, and no prefix for 10, with base 0.
   */
  ghost predicate PrefixFor(prefix: seq<Byte>, t: seq<Byte>, radix: nat, base: int)
  {
    || (prefix == [] && base == radix && t != [])
    || (|prefix| == 2 && prefix[0] == '0' as int && (prefix[1] == 'x' as int || prefix[1] == 'X' as int)
        && radix == 16 && (base == 0 || base == 16) && t != [])
    || (prefix == ['0' as int] && radix == 8 && base == 0)
    || (prefix == [] && radix == 10 && base == 0 && t != [] && t[0] != '0' as int)
  }

  lemma {:induction false} ZeroInFront(t: seq<Byte>, base: nat)
    ensures Numeral(['0' as int] + t, base) == Numeral(t, base)
  {
    if t == [] {
      assert ['0' as int] + t == ['0' as int];
      assert Numeral(['0' as int][..0], base) == 0;
    } else {
      ZeroInFront(t[..|t| - 1], base);
      assert (['0' as int] + t)[..|t|] == ['0' as int] + t[..|t| - 1];
    }
  }

  lemma SpacesEnd(s: seq<Byte>, i: nat)
    requires Terminated(s, 0) && i < |s| && s[i] != 0x20 && forall k :: 0 <= k < i ==> s[k] == 0x20
    ensures SkipSpaces(s, 0) == i
  {
  }

  lemma DigitsEndAt(s: seq<Byte>, i: nat, end: nat, radix: nat)
    requires radix <= 36 && Terminated(s, i) && i <= end < |s| && Digit(s[end]) >= radix
    requires forall k :: i <= k < end ==> Digit(s[k]) < radix
    ensures DigitsEnd(s, i, radix) == end
  {
    hide Digit;
  }

  /** Spaces, a sign, a prefix, digits, and what comes behind them. */
  ghost predicate NumberIn(s: seq<Byte>, i: nat, sign: seq<Byte>, prefix: seq<Byte>, t: seq<Byte>, radix: nat)
  {
    var front := i + |sign| + |prefix|;
    && (sign == [] || sign == ['+' as int] || sign == ['-' as int])
    && front + |t| < |s| && s[i..front + |t|] == sign + prefix + t
    && (forall k :: 0 <= k < i ==> s[k] == 0x20)
    && Terminated(s, front + |t|)
    && Digit(s[front + |t|]) >= radix && !IsX(s[front + |t|])
  }

  lemma ZeroIsDigit(radix: nat)
    requires radix >= 2
    ensures Digit('0' as int) < radix
  {
  }

  lemma NegatedQuad(x: nat)
    requires x <= 0xFFFF_FFFF_FFFF_FFFF
    ensures WrapQuad(-(x as int)) == if x == 0 then 0 else 0x1_0000_0000_0000_0000 - x
  {
  }

  /** The characters of a number, one by one. */
  lemma NumberParts(s: seq<Byte>, i: nat, sign: seq<Byte>, prefix: seq<Byte>, t: seq<Byte>, radix: nat)
    requires NumberIn(s, i, sign, prefix, t, radix)
    ensures |sign| <= 1 && (|sign| == 1 ==> s[i] == sign[0])
    ensures forall k :: 0 <= k < |prefix| ==> s[i + |sign| + k] == prefix[k]
    ensures forall k :: 0 <= k < |t| ==> s[i + |sign| + |prefix| + k] == t[k]
  {
    var u := s[i..i + |sign| + |prefix| + |t|];
    assert |sign| == 1 ==> u[0] == sign[0];
    assert forall k :: 0 <= k < |prefix| ==> u[|sign| + k] == prefix[k];
    assert forall k :: 0 <= k < |t| ==> u[|sign| + |prefix| + k] == t[k];
  }

  /** The characters that decide about sign and radix. */
  lemma HeadChars(s: seq<Byte>, i: nat, sign: seq<Byte>, prefix: seq<Byte>, t: seq<Byte>, radix: nat, base: int)
    requires NumberIn(s, i, sign, prefix, t, radix) && PrefixFor(prefix, t, radix, base)
    requires 2 <= radix <= 36 && DigitText(t, radix)
    ensures var j := i + |sign|;
            && |sign| <= 1 && j + 1 < |s| && Terminated(s, 0)
            && (if |sign| == 1 then s[i] == sign[0] != 0x20
                else s[i] != 0x20 && s[i] != '-' as int && s[i] != '+' as int)
            && (|prefix| == 2 ==> HexPrefix(s, j))
            && (|prefix| != 2 && radix <= 16 ==> !IsX(s[j + 1]))
            && (|prefix| == 1 ==> s[j] == '0' as int)
            && (prefix == [] ==> s[j] == t[0])
  {
    NumberParts(s, i, sign, prefix, t, radix);
    var j := i + |sign|;
    if prefix == [] {
      assert s[j] == t[0] && (|t| > 1 ==> s[j + 1] == t[1]);
    } else if |prefix| == 1 {
      assert s[j] == prefix[0] && (|t| > 0 ==> s[j + 1] == t[0]);
    } else {
      assert s[j] == prefix[0] && s[j + 1] == prefix[1] && s[j + 2] == t[0];
    }
  }

  /** Where the digits start, and in which radix. */
  lemma HeadMeans(s: seq<Byte>, i: nat, sign: seq<Byte>, prefix: seq<Byte>, t: seq<Byte>, radix: nat, base: int)
    requires NumberIn(s, i, sign, prefix, t, radix) && PrefixFor(prefix, t, radix, base)
    requires 2 <= radix <= 36 && DigitText(t, radix)
    ensures Terminated(s, 0)
    ensures HeadOf(s, base) == Head(i + |sign| + (if |prefix| == 2 then 2 else 0), radix, sign == ['-' as int])
  {
    hide SkipSpaces, DigitText, Digit, Terminated;
    HeadChars(s, i, sign, prefix, t, radix, base);
    SpacesEnd(s, i);
  }

  /** The digits from start on are the whole text, because none comes behind. */
  lemma RunIsText(s: seq<Byte>, start: nat, u: seq<Byte>, radix: nat)
    requires radix <= 36 && start + |u| < |s| && s[start..start + |u|] == u && DigitText(u, radix)
    requires Terminated(s, start + |u|) && Digit(s[start + |u|]) >= radix
    ensures Terminated(s, start) && DigitsEnd(s, start, radix) == start + |u|
  {
    hide Digit, DigitsEnd;
    assert forall k :: start <= k < start + |u| ==> s[k] == u[k - start];
    DigitsEndAt(s, start, start + |u|, radix);
  }

  lemma ZeroAndText(t: seq<Byte>, radix: nat)
    requires radix >= 2 && DigitText(t, radix)
    ensures DigitText(['0' as int] + t, radix)
  {
    ZeroIsDigit(radix);
  }

  lemma PrefixCases(prefix: seq<Byte>, t: seq<Byte>, radix: nat, base: int)
    requires PrefixFor(prefix, t, radix, base)
    ensures |prefix| == 1 ==> prefix == ['0' as int]
    ensures |prefix| != 1 ==> t != [] && (prefix == [] || |prefix| == 2)
  {
  }

  /** The text u is the last part of the number, and all of it is digits. */
  lemma NumberEnd(s: seq<Byte>, i: nat, sign: seq<Byte>, prefix: seq<Byte>, t: seq<Byte>, x: seq<Byte>, u: seq<Byte>,
                  radix: nat)
    requires NumberIn(s, i, sign, prefix, t, radix) && sign + prefix + t == x + u
    requires radix <= 36 && DigitText(u, radix)
    ensures var start, end := i + |x|, i + |x| + |u|;
            end < |s| && Terminated(s, start) && DigitsEnd(s, start, radix) == end && s[start..end] == u
  {
    hide Digit, IsX, DigitsEnd, Terminated, DigitText;
    assert |x| + |u| == |sign + prefix + t| == |sign| + |prefix| + |t|;
    assert x + u == x + u + [];
    FieldAt(s, i, x, u, []);
    RunIsText(s, i + |x|, u, radix);
  }

  /** The digits are the text, with a zero in front when that is the prefix. */
  lemma DigitsTaken(s: seq<Byte>, i: nat, sign: seq<Byte>, prefix: seq<Byte>, t: seq<Byte>, radix: nat, base: int)
    requires NumberIn(s, i, sign, prefix, t, radix) && PrefixFor(prefix, t, radix, base)
    requires 2 <= radix <= 36 && DigitText(t, radix)
    ensures var start, end := i + |sign| + (if |prefix| == 2 then 2 else 0), i + |sign| + |prefix| + |t|;
            && start < end < |s| && Terminated(s, start) && DigitsEnd(s, start, radix) == end
            && s[start..end] == if |prefix| == 1 then ['0' as int] + t else t
  {
    hide Digit, IsX, DigitsEnd, Terminated, DigitText, NumberIn, PrefixFor;
    PrefixCases(prefix, t, radix, base);
    if |prefix| == 1 {
      assert sign + prefix + t == sign + (prefix + t);
      ZeroAndText(t, radix);
      NumberEnd(s, i, sign, prefix, t, sign, prefix + t, radix);
    } else {
      NumberEnd(s, i, sign, prefix, t, sign + prefix, t, radix);
    }
  }

  /**
   * The value of a number that is written with spaces, sign and prefix in front and no digit
   * behind: negated modulo 2^64 after a minus sign, the largest number when it does not fit.
   */
  lemma NumberReadBack(s: seq<Byte>, i: nat, sign: seq<Byte>, prefix: seq<Byte>, t: seq<Byte>, radix: nat, base: int)
    requires NumberIn(s, i, sign, prefix, t, radix) && PrefixFor(prefix, t, radix, base)
    requires 2 <= radix <= 36 && DigitText(t, radix)
    ensures Terminated(s, 0)
    ensures var (value, end) := Conversion(s, base);
            && end == i + |sign| + |prefix| + |t|
            && value == (if Numeral(t, radix) > 0xFFFF_FFFF_FFFF_FFFF then 0xFFFF_FFFF_FFFF_FFFF
                         else if sign == ['-' as int] && Numeral(t, radix) > 0
                         then 0x1_0000_0000_0000_0000 - Numeral(t, radix)
                         else Numeral(t, radix))
  {
    hide Digit, Numeral, HeadOf, NumberIn, PrefixFor, DigitText, DigitsEnd, WrapQuad;
    HeadMeans(s, i, sign, prefix, t, radix, base);
    DigitsTaken(s, i, sign, prefix, t, radix, base);
    ZeroInFront(t, radix);
    if Numeral(t, radix) <= 0xFFFF_FFFF_FFFF_FFFF {
      NegatedQuad(Numeral(t, radix));
    }
  }
}

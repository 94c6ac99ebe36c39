/**
 * Formatted output (standalone/printf.c).
 */
module Printf {
  import opened Bits
  import opened HalfWords
  import opened Memory
  import opened QDivRem
  import opened Strtoull

  function DigitChar(d: nat): Byte
    requires d < 16
  {
    if d < 10 then '0' as int + d else 'a' as int + (d - 10)
  }

  lemma QuotientBounds(v: nat, base: nat)
    requires 2 <= base
    ensures 0 <= v / base && v == (v / base) * base + v % base
    ensures v >= base ==> 0 < v / base < v
    ensures v < base ==> v / base == 0
  {
    if v < base {
      ModUnique(v, base, 0, v);
    } else {
      MulMono(2, base, v / base);
    }
  }

  /** Less than v for v >= base. */
  function Quotient(v: nat, base: nat): (q: nat)
    requires 2 <= base
    ensures v >= base ==> 0 < q < v
    ensures v < base ==> q == 0
    ensures v == q * base + v % base
  {
    QuotientBounds(v, base);
    v / base
  }

  /** The shortest numeral of a number, most significant digit first. */
  function Text(v: nat, base: nat): (r: seq<Byte>)
    requires 2 <= base <= 16
    ensures r != []
  {
    if v < base then [DigitChar(v)] else Text(Quotient(v, base), base) + [DigitChar(v % base)]
  }

  function ZeroDigits(n: int): seq<Byte>
  {
    if n <= 0 then [] else ['0' as int] + ZeroDigits(n - 1)
  }

  /** A number as it is printed: padded on the left with zeros to the fill width. */
  function NumberText(v: nat, base: nat, fill: nat): seq<Byte>
    requires 2 <= base <= 16
  {
    ZeroDigits(fill - |Text(v, base)|) + Text(v, base)
  }

  function Reverse(s: seq<Byte>): (r: seq<Byte>)
    ensures |r| == |s|
  {
    if s == [] then [] else Reverse(s[1..]) + [s[0]]
  }

  lemma ReverseAppend(s: seq<Byte>, x: Byte)
    ensures Reverse(s + [x]) == [x] + Reverse(s)
  {
    if s == [] {
      assert [] + [x] == [x] && [x][1..] == [];
    } else {
      assert (s + [x])[1..] == s[1..] + [x];
      ReverseAppend(s[1..], x);
    }
  }

  lemma PowTwoOne()
    ensures Pow(2, 1) == 2
  {
    assert Pow(2, 1) == 2 * Pow(2, 0);
  }

  /** In base 2 or higher, a number below 2^e has at most e digits. */
  lemma {:induction false} TextLength(v: nat, base: nat, e: nat)
    requires 2 <= base <= 16 && e >= 1
    requires v < Pow(2, e)
    ensures |Text(v, base)| <= e
  {
    hide Quotient, DigitChar;
    if v >= base {
      var q := Quotient(v, base);
      PowTwoOne();
      MulMono(2, base, q);
      TextLength(q, base, e - 1);
    }
  }

  lemma {:induction false} ReverseTwice(s: seq<Byte>)
    ensures Reverse(Reverse(s)) == s
  {
    if s != [] {
      ReverseAppend(Reverse(s[1..]), s[0]);
      ReverseTwice(s[1..]);
    }
  }

  lemma ReverseNothing()
    ensures Reverse([]) == []
  {
  }

  /** The digits come out from the last to the first. */
  lemma TextBackwards(v: nat, base: nat)
    requires 2 <= base <= 16
    ensures Reverse(Text(v, base)) == [DigitChar(v % base)] + (if v < base then [] else Reverse(Text(v / base, base)))
    ensures |Text(v, base)| == if v < base then 1 else 1 + |Text(v / base, base)|
  {
    hide DigitChar, Reverse;
    QuotientBounds(v, base);
    if v < base {
      ModUnique(v, base, 0, v);
      ReverseAppend([], DigitChar(v));
      ReverseNothing();
      assert [] + [DigitChar(v)] == [DigitChar(v)];
    } else {
      ReverseAppend(Text(v / base, base), DigitChar(v % base));
    }
  }

  lemma ZerosSnoc(n: nat)
    ensures ZeroDigits(n + 1) == ZeroDigits(n) + ['0' as int]
  {
    if n > 0 {
      ZerosSnoc(n - 1);
      assert ZeroDigits(n + 1) == ['0' as int] + ZeroDigits(n);
    }
  }

  lemma DecimalChar(d: nat)
    requires d < 10
    ensures DigitChar(d) == '0' as int + d
  {
  }

  lemma DigitsFit(v: Quad, base: nat)
    requires 2 <= base <= 16
    ensures |Text(v, base)| <= 64
  {
    hide Text, Pow;
    PowersOfTwo();
    TextLength(v, base, 64);
  }

  /** The loop that leaves the decimal digits in the buffer, the last one first. */
  method DecimalDigits(buf: array<Byte>, v: Quad) returns (n: nat)
    requires buf.Length == 64
    modifies buf
    ensures n <= 64 && buf[..n] == Reverse(Text(v, 10))
  {
    hide Text, Reverse, DigitChar;
    n := 0;
    var u := v;
    DigitsFit(v, 10);
    while true
      invariant n + |Text(u, 10)| == |Text(v, 10)| <= 64
      invariant Reverse(Text(v, 10)) == buf[..n] + Reverse(Text(u, 10))
      decreases u
    {
      TextBackwards(u, 10);
      var r := UModDi3(u, 10);
      DecimalChar(r);
      buf[n] := '0' as int + r;
      n := n + 1;
      u := UDivDi3(u, 10);
      if u == 0 {
        break;
      }
    }
  }

  lemma NibbleIsRemainder(u: nat)
    ensures And(u, 0xF) == u % 0x10 < 0x10
  {
    hide And, Pow;
    PowersOfTwo();
    AndLowMask(u, 4);
  }

  /** The loop that leaves the hexadecimal digits in the buffer, the last one first. */
  method HexDigits(buf: array<Byte>, v: Quad) returns (n: nat)
    requires buf.Length == 64
    modifies buf
    ensures n <= 64 && buf[..n] == Reverse(Text(v, 16))
  {
    hide Text, Reverse, DigitChar, And;
    n := 0;
    var u := v;
    DigitsFit(v, 16);
    while true
      invariant n + |Text(u, 16)| == |Text(v, 16)| <= 64
      invariant Reverse(Text(v, 16)) == buf[..n] + Reverse(Text(u, 16))
      decreases u
    {
      TextBackwards(u, 16);
      QuotientBounds(u, 16);
      NibbleIsRemainder(u);
      buf[n] := DigitChar(And(u, 0xF));
      n := n + 1;
      u := u / 0x10;
      if u == 0 {
        break;
      }
    }
  }

  lemma ZerosNothing()
    ensures ZeroDigits(0) == []
  {
  }

  /** A negative number of zeros is none. */
  lemma ZerosOf(n: int, k: nat)
    requires k == if n > 0 then n else 0
    ensures ZeroDigits(n) == ZeroDigits(k)
  {
  }

  /** Print the fill and then the buffer backwards. */
  method DumpBuffer(out: seq<Byte>, buf: array<Byte>, len: nat, width: Word) returns (out': seq<Byte>)
    requires len <= buf.Length
    ensures out' == out + ZeroDigits(width as int - len) + Reverse(buf[..len])
  {
    hide Reverse, ZeroDigits;
    out' := out;
    var fill := width;
    ghost var k := 0;
    ZerosNothing();
    while true
      invariant 0 <= k <= (if width > len then width - len else 0) && fill == width - k
      invariant out' == out + ZeroDigits(k)
      decreases width - k
    {
      var more := len < fill;
      fill := Wrap(fill as int - 1);
      if !more {
        break;
      }
      ZerosSnoc(k);
      out' := out' + ['0' as int];
      k := k + 1;
    }
    ZerosOf(width as int - len, k);
    var s := len;
    ghost var all := out' + Reverse(buf[..len]);
    while s > 0
      invariant 0 <= s <= len
      invariant all == out' + Reverse(buf[..s])
    {
      s := s - 1;
      assert buf[..s + 1] == buf[..s] + [buf[s]];
      ReverseAppend(buf[..s], buf[s]);
      out' := out' + [buf[s]];
    }
    ReverseNothing();
    assert out' + [] == out';
  }

  method PrintNumber(out: seq<Byte>, v: Quad, base: nat, fill: Word) returns (out': seq<Byte>)
    requires base == 10 || base == 16
    ensures out' == out + NumberText(v, base, fill)
  {
    hide Text, Reverse, ZeroDigits;
    var buf := new Byte[64](_ => 0);
    var n;
    if base == 10 {
      n := DecimalDigits(buf, v);
    } else {
      n := HexDigits(buf, v);
    }
    out' := DumpBuffer(out, buf, n, fill);
    ReverseTwice(Text(v, base));
    assert out + ZeroDigits(fill as int - n) + Text(v, base) == out + NumberText(v, base, fill);
  }

  /** A piece of a format: a plain character, or a conversion with its number of l's and its last fill digit. */
  datatype Item = Plain(c: Byte) | Conversion(kind: Byte, longness: nat, fill: nat)

  datatype Arg = Character(b: Byte) | String(text: seq<Byte>) | Unsigned(w: Word) | LongLong(q: Quad)

  /** c, s, d, u, p, x. */
  predicate IsConversion(c: Byte)
  {
    c == 'c' as int || c == 's' as int || c == 'd' as int || c == 'u' as int || c == 'p' as int || c == 'x' as int
  }

  predicate IsDecimalDigit(c: Byte)
  {
    '0' as int <= c <= '9' as int
  }

  function DigitOf(c: Byte): nat
    requires IsDecimalDigit(c)
  {
    c - '0' as int
  }

  /** A character that does not end the conversion: an l counts, a digit is remembered. */
  function Skipped(fmt: seq<Byte>, longness: nat, fill: nat): seq<Item>
    requires fmt != []
    decreases |fmt| - 1, 1
  {
    ParseConversion(fmt[1..], if fmt[0] == 'l' as int then longness + 1 else longness,
                    if IsDecimalDigit(fmt[0]) then DigitOf(fmt[0]) else fill)
  }

  /** The pieces behind a percent sign: up to the next conversion character, everything else is dropped. */
  function ParseConversion(fmt: seq<Byte>, longness: nat, fill: nat): seq<Item>
    decreases |fmt|, 0
  {
    if fmt == [] then []
    else if IsConversion(fmt[0]) then [Conversion(fmt[0], longness, fill)] + Parse(fmt[1..])
    else Skipped(fmt, longness, fill)
  }

  /** The pieces of a format. */
  function Parse(fmt: seq<Byte>): seq<Item>
    decreases |fmt|, 1
  {
    if fmt == [] then []
    else if fmt[0] == '%' as int then ParseConversion(fmt[1..], 0, 0)
    else [Plain(fmt[0])] + Parse(fmt[1..])
  }

  /** The number of l's. */
  function Ells(mid: seq<Byte>): nat
  {
    if mid == [] then 0 else Ells(mid[1..]) + (if mid[0] == 'l' as int then 1 else 0)
  }

  /** The last digit, or the default. */
  function LastDigit(mid: seq<Byte>, default: nat): nat
  {
    if mid == [] then default
    else if IsDecimalDigit(mid[|mid| - 1]) then DigitOf(mid[|mid| - 1])
    else LastDigit(mid[..|mid| - 1], default)
  }

  lemma {:induction false} LastDigitHead(mid: seq<Byte>, default: nat)
    requires mid != []
    ensures LastDigit(mid, default) == LastDigit(mid[1..], if IsDecimalDigit(mid[0]) then DigitOf(mid[0]) else default)
  {
    if |mid| > 1 {
      var rest := mid[1..];
      assert rest[|rest| - 1] == mid[|mid| - 1];
      assert rest[..|rest| - 1] == mid[..|mid| - 1][1..];
      if !IsDecimalDigit(mid[|mid| - 1]) {
        LastDigitHead(mid[..|mid| - 1], default);
      }
    }
  }

  /** What is between the percent sign and the conversion character counts by its l's and its last digit. */
  lemma {:induction false} ConversionMeans(mid: seq<Byte>, kind: Byte, rest: seq<Byte>, longness: nat, fill: nat)
    requires forall k :: 0 <= k < |mid| ==> !IsConversion(mid[k])
    requires IsConversion(kind)
    ensures ParseConversion(mid + [kind] + rest, longness, fill)
         == [Conversion(kind, longness + Ells(mid), LastDigit(mid, fill))] + Parse(rest)
    decreases |mid|
  {
    hide IsConversion, IsDecimalDigit;
    if mid == [] {
      assert [] + [kind] + rest == [kind] + rest;
      assert ([kind] + rest)[1..] == rest;
    } else {
      var fmt := mid + [kind] + rest;
      assert fmt[1..] == mid[1..] + [kind] + rest;
      LastDigitHead(mid, fill);
      ConversionMeans(mid[1..], kind, rest, if mid[0] == 'l' as int then longness + 1 else longness,
                      if IsDecimalDigit(mid[0]) then DigitOf(mid[0]) else fill);
    }
  }

  /** Fewer than two l's take an unsigned number, more take an unsigned long long. */
  predicate Takes(kind: Byte, longness: nat, arg: Arg)
  {
    if kind == 'c' as int then arg.Character?
    else if kind == 's' as int then arg.String?
    else if longness < 2 then arg.Unsigned?
    else arg.LongLong?
  }

  /** There is an argument of the right type for every conversion. */
  predicate Supplied(items: seq<Item>, args: seq<Arg>)
  {
    items != [] ==>
      match items[0]
      case Plain(_) => Supplied(items[1..], args)
      case Conversion(kind, longness, _) =>
        args != [] && Takes(kind, longness, args[0]) && Supplied(items[1..], args[1..])
  }

  /** d and u are decimal, p and x hexadecimal. */
  function BaseOf(kind: Byte): nat
  {
    if kind == 'd' as int || kind == 'u' as int then 10 else 16
  }

  /** What one conversion prints. */
  function Shown(kind: Byte, longness: nat, fill: nat, arg: Arg): seq<Byte>
    requires Takes(kind, longness, arg)
  {
    if kind == 'c' as int then [arg.b]
    else if kind == 's' as int then arg.text
    else NumberText(if longness < 2 then arg.w else arg.q, BaseOf(kind), fill)
  }

  /** What the pieces print together. */
  function Rendered(items: seq<Item>, args: seq<Arg>): seq<Byte>
    requires Supplied(items, args)
  {
    if items == [] then []
    else
      match items[0]
      case Plain(c) => [c] + Rendered(items[1..], args)
      case Conversion(kind, longness, fill) => Shown(kind, longness, fill, args[0]) + Rendered(items[1..], args[1..])
  }

  /** What is left to parse in a state of the machine. */
  function Pending(fmt: seq<Byte>, inFormat: bool, longness: nat, fill: nat): seq<Item>
  {
    if inFormat then ParseConversion(fmt, longness, fill) else Parse(fmt)
  }

  /** What was printed, and what is still to be printed, make up the whole output. */
  ghost predicate OnTrack(all: seq<Byte>, out: seq<Byte>, items: seq<Item>, args: seq<Arg>)
  {
    Supplied(items, args) && all == out + Rendered(items, args)
  }

  /** One conversion. */
  method Show(out: seq<Byte>, kind: Byte, longness: nat, fill: Word, arg: Arg) returns (out': seq<Byte>)
    requires IsConversion(kind) && Takes(kind, longness, arg)
    ensures out' == out + Shown(kind, longness, fill, arg)
  {
    hide NumberText;
    if kind == 'c' as int {
      out' := out + [arg.b];
    } else if kind == 's' as int {
      out' := out + arg.text;
    } else {
      var ull: Quad := if longness < 2 then arg.w else arg.q;
      out' := PrintNumber(out, ull, BaseOf(kind), fill);
    }
  }

  lemma ParseKind(fmt: seq<Byte>, longness: nat, fill: nat)
    requires fmt != [] && IsConversion(fmt[0])
    ensures ParseConversion(fmt, longness, fill) == [Conversion(fmt[0], longness, fill)] + Parse(fmt[1..])
  {
    hide IsConversion, Parse;
  }

  lemma FirstConversion(kind: Byte, longness: nat, fill: nat, rest: seq<Item>, args: seq<Arg>)
    requires Supplied([Conversion(kind, longness, fill)] + rest, args)
    ensures args != [] && Takes(kind, longness, args[0]) && Supplied(rest, args[1..])
    ensures Rendered([Conversion(kind, longness, fill)] + rest, args)
         == Shown(kind, longness, fill, args[0]) + Rendered(rest, args[1..])
  {
    hide Takes, Shown;
    assert ([Conversion(kind, longness, fill)] + rest)[1..] == rest;
  }

  lemma ConversionStep(all: seq<Byte>, out: seq<Byte>, fmt: seq<Byte>, longness: nat, fill: nat, args: seq<Arg>)
    requires fmt != [] && IsConversion(fmt[0])
    requires OnTrack(all, out, ParseConversion(fmt, longness, fill), args)
    ensures args != [] && Takes(fmt[0], longness, args[0])
    ensures OnTrack(all, out + Shown(fmt[0], longness, fill, args[0]), Parse(fmt[1..]), args[1..])
  {
    hide IsConversion, Takes, Shown, Parse, ParseConversion, Supplied, Rendered;
    ParseKind(fmt, longness, fill);
    FirstConversion(fmt[0], longness, fill, Parse(fmt[1..]), args);
    var shown := Shown(fmt[0], longness, fill, args[0]);
    assert out + shown + Rendered(Parse(fmt[1..]), args[1..]) == out + (shown + Rendered(Parse(fmt[1..]), args[1..]));
  }

  lemma PlainStep(all: seq<Byte>, out: seq<Byte>, fmt: seq<Byte>, args: seq<Arg>)
    requires fmt != [] && fmt[0] != '%' as int
    requires OnTrack(all, out, Parse(fmt), args)
    ensures OnTrack(all, out + [fmt[0]], Parse(fmt[1..]), args)
  {
    var item, rest := Plain(fmt[0]), Parse(fmt[1..]);
    assert ([item] + rest)[1..] == rest;
  }

  lemma PendingStep(fmt: seq<Byte>, longness: nat, fill: nat)
    requires fmt != []
    ensures fmt[0] == '%' as int ==> Parse(fmt) == ParseConversion(fmt[1..], 0, 0)
    ensures !IsConversion(fmt[0]) ==> ParseConversion(fmt, longness, fill) == Skipped(fmt, longness, fill)
    ensures IsDecimalDigit(fmt[0]) || fmt[0] == 'l' as int ==> !IsConversion(fmt[0])
    ensures fmt[0] == 'l' as int ==> !IsDecimalDigit(fmt[0])
  {
  }

  lemma NothingPending(inFormat: bool, longness: nat, fill: nat, args: seq<Arg>)
    ensures Pending([], inFormat, longness, fill) == []
    ensures Supplied([], args) && Rendered([], args) == []
  {
  }

  /** The loop over the format, with its two states. */
  method Vprintf(fmt: seq<Byte>, args: seq<Arg>) returns (out: seq<Byte>)
    requires Terminated(fmt, 0)
    requires Supplied(Parse(fmt[..StrLen(fmt, 0)]), args)
    ensures out == Rendered(Parse(fmt[..StrLen(fmt, 0)]), args)
  {
    hide StrLen, Terminated, Supplied, Rendered, IsConversion, Takes, Shown, Parse, ParseConversion;
    ghost var n := StrLen(fmt, 0);
    ghost var all := Rendered(Parse(fmt[..n]), args);
    out := [];
    var i, left, inFormat, longness, fill: Word := 0, args, false, 0, 0;
    assert fmt[0..n] == fmt[..n];
    while fmt[i] != 0
      invariant 0 <= i <= n < |fmt|
      invariant OnTrack(all, out, Pending(fmt[i..n], inFormat, longness, fill), left)
      decreases n - i
    {
      var c := fmt[i];
      ghost var rest := fmt[i..n];
      assert rest[1..] == fmt[i + 1..n];
      PendingStep(rest, longness, fill);
      if !inFormat {
        longness, fill := 0, 0;
        if c == '%' as int {
          inFormat := true;
        } else {
          PlainStep(all, out, rest, left);
          out := out + [c];
        }
      } else if IsDecimalDigit(c) {
        fill := DigitOf(c);
      } else if c == 'l' as int {
        longness := longness + 1;
      } else if IsConversion(c) {
        ConversionStep(all, out, rest, longness, fill, left);
        out := Show(out, c, longness, fill, left[0]);
        left := left[1..];
        inFormat := false;
      }
      i := i + 1;
    }
    assert fmt[n..n] == [];
    NothingPending(inFormat, longness, fill, left);
  }

  /** A printed digit is a digit of its base, and no space, sign or x. */
  lemma PrintedDigit(d: nat)
    requires d < 16
    ensures Digit(DigitChar(d)) == d
    ensures DigitChar(d) != 0 && DigitChar(d) != 0x20 && !IsX(DigitChar(d))
    ensures DigitChar(d) != '-' as int && DigitChar(d) != '+' as int
  {
  }

  predicate PrintedBelow(c: Byte, base: nat)
  {
    Digit(c) < base && c != 0 && c != 0x20 && !IsX(c) && c != '-' as int && c != '+' as int
  }

  /** Every character is a digit below the base. */
  predicate AllPrinted(t: seq<Byte>, base: nat)
  {
    forall k :: 0 <= k < |t| ==> PrintedBelow(t[k], base)
  }

  lemma {:induction false} TextReadBack(v: nat, base: nat)
    requires 2 <= base <= 16
    ensures AllPrinted(Text(v, base), base) && Numeral(Text(v, base), base) == v
  {
    hide DigitChar, Digit;
    PrintedDigit(v % base);
    QuotientBounds(v, base);
    if v < base {
      ModUnique(v, base, 0, v);
      NumeralNone(base);
      assert Numeral([DigitChar(v)], base) == 0 * base + v;
    } else {
      var head := Text(v / base, base);
      TextReadBack(v / base, base);
      assert (head + [DigitChar(v % base)])[..|head|] == head;
    }
  }

  /** Leading zeros do not change the value. */
  lemma {:induction false} ZerosReadBack(n: int, t: seq<Byte>, base: nat)
    requires 2 <= base <= 16 && AllPrinted(t, base)
    ensures AllPrinted(ZeroDigits(n) + t, base) && Numeral(ZeroDigits(n) + t, base) == Numeral(t, base)
    ensures |ZeroDigits(n)| == if n > 0 then n else 0
    decreases n
  {
    hide Digit;
    if n <= 0 {
      assert ZeroDigits(n) + t == t;
    } else {
      ZerosReadBack(n - 1, t, base);
      PrintedDigit(0);
      ZeroInFront(ZeroDigits(n - 1) + t, base);
      assert ZeroDigits(n) + t == ['0' as int] + (ZeroDigits(n - 1) + t);
    }
  }

  /** A printed number has at least the fill width, and no more than it needs. */
  lemma NumberTextLength(v: nat, base: nat, fill: nat)
    requires 2 <= base <= 16
    ensures |NumberText(v, base, fill)| == if fill > |Text(v, base)| then fill else |Text(v, base)|
  {
    TextReadBack(v, base);
    ZerosReadBack(fill - |Text(v, base)|, Text(v, base), base);
  }

  lemma NulIsNoDigit()
    ensures Digit(0) == 36
  {
  }

  lemma NoX(c: Byte)
    ensures c == 0 ==> !IsX(c)
  {
  }

  /** A string of digits alone is converted as a whole. */
  lemma DigitsConverted(t: seq<Byte>, base: nat)
    requires base == 10 || base == 16
    requires t != [] && AllPrinted(t, base) && Numeral(t, base) <= 0xFFFF_FFFF_FFFF_FFFF
    ensures Terminated(t + [0], 0) && Strtoull.Conversion(t + [0], base) == (Numeral(t, base), |t|)
  {
    hide Digit, Numeral, IsX;
    var s := t + [0];
    assert s[|t|] == 0;
    NulIsNoDigit();
    assert forall k :: 0 <= k < |t| ==> PrintedBelow(s[k], base);
    assert SkipSpaces(s, 0) == 0;
    NoX(0);
    assert !HexPrefix(s, 0) by {
      if |t| > 1 {
        assert PrintedBelow(s[1], base);
      }
    }
    assert HeadOf(s, base) == Head(0, base, false);
    var end := DigitsEnd(s, 0, base);
    assert end == |t|;
    assert s[0..|t|] == t;
  }

  /**
   * Print and parse: any number, printed in base 10 or 16 with any fill, is read back as itself, to
   * the end of the text.
   */
  lemma PrintThenParse(v: Quad, base: nat, fill: nat)
    requires base == 10 || base == 16
    ensures var t := NumberText(v, base, fill);
            Terminated(t + [0], 0) && Strtoull.Conversion(t + [0], base) == (v, |t|)
  {
    hide Numeral, AllPrinted, DigitsEnd, HeadOf;
    TextReadBack(v, base);
    ZerosReadBack(fill - |Text(v, base)|, Text(v, base), base);
    DigitsConverted(NumberText(v, base, fill), base);
  }

  lemma ParsePercent(rest: seq<Byte>)
    ensures Parse(['%' as int] + rest) == ParseConversion(rest, 0, 0)
    ensures Parse([]) == []
  {
    assert (['%' as int] + rest)[1..] == rest;
  }

  /** A format that is one conversion is one piece. */
  lemma ParsedAlone(mid: seq<Byte>, kind: Byte)
    requires forall k :: 0 <= k < |mid| ==> !IsConversion(mid[k])
    requires IsConversion(kind)
    ensures Parse(['%' as int] + mid + [kind]) == [Conversion(kind, Ells(mid), LastDigit(mid, 0))]
  {
    hide IsConversion, ParseConversion, Parse, Ells, LastDigit;
    ConversionMeans(mid, kind, [], 0, 0);
    ParsePercent(mid + [kind]);
    assert ['%' as int] + mid + [kind] == ['%' as int] + (mid + [kind]);
    assert mid + [kind] + [] == mid + [kind];
  }

  lemma RenderedAlone(kind: Byte, longness: nat, fill: nat, arg: Arg)
    requires Takes(kind, longness, arg)
    ensures var items := [Conversion(kind, longness, fill)];
            Supplied(items, [arg]) && Rendered(items, [arg]) == Shown(kind, longness, fill, arg)
  {
    hide Takes, Shown;
    var items := [Conversion(kind, longness, fill)];
    assert items[1..] == [] && [arg][1..] == [];
    assert Rendered([], []) == [];
  }

  /** The digits are 0 to 9 and a to f. */
  lemma DigitTable(d: nat)
    requires d < 16
    ensures DigitChar(d)
         == ['0' as int, '1' as int, '2' as int, '3' as int, '4' as int, '5' as int, '6' as int, '7' as int,
             '8' as int, '9' as int, 'a' as int, 'b' as int, 'c' as int, 'd' as int, 'e' as int, 'f' as int][d]
  {
  }

  predicate IsLowerHex(c: Byte)
  {
    '0' as int <= c <= '9' as int || 'a' as int <= c <= 'f' as int
  }

  ghost predicate AllLowerHex(t: seq<Byte>)
  {
    forall k :: 0 <= k < |t| ==> IsLowerHex(t[k])
  }

  /** A number is printed in lower case digits, without a leading zero unless it is zero. */
  lemma {:induction false} TextShape(v: nat, base: nat)
    requires 2 <= base <= 16
    ensures AllLowerHex(Text(v, base))
    ensures v > 0 ==> Text(v, base)[0] != '0' as int
    ensures v == 0 ==> |Text(v, base)| == 1
  {
    if v >= base {
      TextShape(Quotient(v, base), base);
    }
  }

  lemma LowerHexBehind(c: Byte, t: seq<Byte>)
    requires IsLowerHex(c) && AllLowerHex(t)
    ensures AllLowerHex([c] + t)
  {
  }

  lemma {:induction false} ZeroShape(n: int, t: seq<Byte>)
    requires AllLowerHex(t)
    ensures AllLowerHex(ZeroDigits(n) + t)
    ensures n <= 0 ==> ZeroDigits(n) + t == t
    decreases n
  {
    hide AllLowerHex;
    if n > 0 {
      ZeroShape(n - 1, t);
      LowerHexBehind('0' as int, ZeroDigits(n - 1) + t);
      assert ZeroDigits(n) + t == ['0' as int] + (ZeroDigits(n - 1) + t);
    } else {
      assert ZeroDigits(n) + t == t;
    }
  }

  /** Longer than the fill asks, a printed number has no leading zero. */
  lemma NumberShape(v: nat, base: nat, fill: nat)
    requires 2 <= base <= 16
    ensures var t := NumberText(v, base, fill);
            && AllLowerHex(t)
            && (|t| > fill && |t| > 1 ==> t[0] != '0' as int)
  {
    TextShape(v, base);
    NumberTextLength(v, base, fill);
    ZeroShape(fill - |Text(v, base)|, Text(v, base));
  }

  lemma {:induction false} EllsCount(mid: seq<Byte>)
    ensures Ells(mid) == multiset(mid)['l' as int]
  {
    if mid != [] {
      EllsCount(mid[1..]);
      assert mid == [mid[0]] + mid[1..];
    }
  }

  /** The fill is the last digit of the middle, or zero when there is none. */
  ghost predicate IsFill(mid: seq<Byte>, fill: nat)
  {
    || (fill == 0 && forall k :: 0 <= k < |mid| ==> !('0' as int <= mid[k] <= '9' as int))
    || exists i :: 0 <= i < |mid| && '0' as int <= mid[i] <= '9' as int && fill == mid[i] - '0' as int
                   && forall k :: i < k < |mid| ==> !('0' as int <= mid[k] <= '9' as int)
  }

  lemma {:induction false} LastDigitMeans(mid: seq<Byte>, fill: nat)
    requires IsFill(mid, fill)
    ensures LastDigit(mid, 0) == fill
    decreases |mid|
  {
    if mid != [] && !IsDecimalDigit(mid[|mid| - 1]) {
      var init := mid[..|mid| - 1];
      if i :| 0 <= i < |mid| && '0' as int <= mid[i] <= '9' as int && fill == mid[i] - '0' as int
              && forall k :: i < k < |mid| ==> !('0' as int <= mid[k] <= '9' as int) {
        assert init[i] == mid[i];
      }
      LastDigitMeans(init, fill);
    }
  }

  /** None of c, s, d, u, p, x is in the text. */
  ghost predicate NoConversion(mid: seq<Byte>)
  {
    && 'c' as int !in mid && 's' as int !in mid && 'd' as int !in mid
    && 'u' as int !in mid && 'p' as int !in mid && 'x' as int !in mid
  }

  lemma MiddleSkipped(mid: seq<Byte>)
    requires NoConversion(mid)
    ensures forall k :: 0 <= k < |mid| ==> !IsConversion(mid[k])
  {
  }

  /**
   * Print and parse, from the format on: a percent sign, a middle without conversion characters,
   * and d, u, p or x. With fewer than two l's in the middle it takes an unsigned number, else an
   * unsigned long long. What it prints is read back as that number, in base 10 for d and u and in
   * base 16 for p and x, to the end. It is at least as long as the last digit of the middle says, in
   * lower case, and has no more leading zeros than that.
   */
  lemma FormatThenParse(mid: seq<Byte>, kind: Byte, fill: nat, v: Quad, arg: Arg)
    requires NoConversion(mid) && IsFill(mid, fill)
    requires kind == 'd' as int || kind == 'u' as int || kind == 'p' as int || kind == 'x' as int
    requires if multiset(mid)['l' as int] < 2 then v < 0x1_0000_0000 && arg == Unsigned(v) else arg == LongLong(v)
    ensures var items := Parse(['%' as int] + mid + [kind]);
            && Supplied(items, [arg])
            && var t := Rendered(items, [arg]);
            && Terminated(t + [0], 0)
            && Strtoull.Conversion(t + [0], if kind == 'd' as int || kind == 'u' as int then 10 else 16) == (v, |t|)
            && |t| >= fill && (|t| > fill && |t| > 1 ==> t[0] != '0' as int)
            && AllLowerHex(t)
  {
    hide Parse, Supplied, Rendered, NumberText, LastDigit, Ells, IsFill, NoConversion, AllLowerHex;
    MiddleSkipped(mid);
    EllsCount(mid);
    LastDigitMeans(mid, fill);
    ParsedAlone(mid, kind);
    RenderedAlone(kind, Ells(mid), fill, arg);
    NumberTextLength(v, BaseOf(kind), fill);
    NumberShape(v, BaseOf(kind), fill);
    PrintThenParse(v, BaseOf(kind), fill);
  }

  lemma {:induction false} PlainFront(plain: seq<Byte>, rest: seq<Byte>, args: seq<Arg>)
    requires '%' as int !in plain && Supplied(Parse(rest), args)
    ensures Supplied(Parse(plain + rest), args)
    ensures Rendered(Parse(plain + rest), args) == plain + Rendered(Parse(rest), args)
    decreases |plain|
  {
    hide ParseConversion;
    if plain == [] {
      assert plain + rest == rest;
    } else {
      PlainFront(plain[1..], rest, args);
      assert (plain + rest)[1..] == plain[1..] + rest && (plain + rest)[0] == plain[0];
      var items := Parse(plain[1..] + rest);
      assert ([Plain(plain[0])] + items)[1..] == items;
      assert plain == [plain[0]] + plain[1..];
    }
  }

  /**
   * A format is printed piece by piece: the text in front of a percent sign as it is, then its
   * conversion with the next argument, then the rest with the other arguments.
   */
  lemma FormatSplits(plain: seq<Byte>, mid: seq<Byte>, kind: Byte, rest: seq<Byte>, arg: Arg, args: seq<Arg>)
    requires '%' as int !in plain && NoConversion(mid) && IsConversion(kind)
    requires Takes(kind, Ells(mid), arg) && Supplied(Parse(rest), args)
    ensures var items := Parse(plain + (['%' as int] + mid + [kind] + rest));
            && Supplied(items, [arg] + args)
            && Rendered(items, [arg] + args)
               == plain + Shown(kind, Ells(mid), LastDigit(mid, 0), arg) + Rendered(Parse(rest), args)
  {
    hide Parse, ParseConversion, IsConversion, Takes, Shown, LastDigit, Ells;
    var fmt := ['%' as int] + mid + [kind] + rest;
    var item := Conversion(kind, Ells(mid), LastDigit(mid, 0));
    MiddleSkipped(mid);
    ConversionMeans(mid, kind, rest, 0, 0);
    ParsePercent(mid + [kind] + rest);
    assert fmt == ['%' as int] + (mid + [kind] + rest);
    assert ([item] + Parse(rest))[1..] == Parse(rest) && ([arg] + args)[1..] == args;
    PlainFront(plain, fmt, [arg] + args);
  }

  /** A character and a string are printed as they are. */
  lemma CharactersShown(longness: nat, fill: nat, b: Byte, text: seq<Byte>)
    ensures IsConversion('c' as int) && Takes('c' as int, longness, Character(b))
    ensures Shown('c' as int, longness, fill, Character(b)) == [b]
    ensures IsConversion('s' as int) && Takes('s' as int, longness, String(text))
    ensures Shown('s' as int, longness, fill, String(text)) == text
  {
  }

  /** A format without percent sign is printed as it is. */
  lemma PlainText(plain: seq<Byte>)
    requires '%' as int !in plain
    ensures Supplied(Parse(plain), []) && Rendered(Parse(plain), []) == plain
  {
    PlainFront(plain, [], []);
    assert plain + [] == plain;
  }

  /** A percent sign without a conversion character behind it prints nothing more. */
  lemma {:induction false} Unfinished(mid: seq<Byte>, longness: nat, fill: nat)
    requires NoConversion(mid)
    ensures ParseConversion(mid, longness, fill) == []
    decreases |mid|
  {
    if mid != [] {
      MiddleSkipped(mid);
      assert NoConversion(mid[1..]);
      Unfinished(mid[1..], if mid[0] == 'l' as int then longness + 1 else longness,
                 if IsDecimalDigit(mid[0]) then DigitOf(mid[0]) else fill);
    }
  }
}

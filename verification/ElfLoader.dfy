/**
 * The trampoline generator of standalone/elf.c: program headers in, machine code out.
 */
module ElfLoader {
  import opened Bits
  import opened Memory
  import opened X86
  import opened Trampoline

  /** The fields of an ELF header that the loader reads (both classes). */
  datatype Ehdr = Ehdr(etype: nat, machine: nat, version: Word, entry: Quad, phoff: Quad, phentsize: nat, phnum: nat)

  /** The fields of a program header that the loader reads (both classes). */
  datatype Phdr = Phdr(ptype: Word, offset: Quad, paddr: Quad, filesz: Quad, memsz: Quad)

  function EhdrSize(is64: bool): nat
  {
    if is64 then 64 else 52
  }

  function PhdrSize(is64: bool): nat
  {
    if is64 then 56 else 32
  }

  function ReadEhdr(m: seq<Byte>, a: nat, is64: bool): Ehdr
    requires a + EhdrSize(is64) <= |m|
  {
    if is64 then
      Ehdr(ReadHalf(m, a + 16), ReadHalf(m, a + 18), ReadWord(m, a + 20), ReadQuad(m, a + 24), ReadQuad(m, a + 32),
           ReadHalf(m, a + 54), ReadHalf(m, a + 56))
    else
      Ehdr(ReadHalf(m, a + 16), ReadHalf(m, a + 18), ReadWord(m, a + 20), ReadWord(m, a + 24), ReadWord(m, a + 28),
           ReadHalf(m, a + 42), ReadHalf(m, a + 44))
  }

  function ReadPhdr(m: seq<Byte>, a: nat, is64: bool): Phdr
    requires a + PhdrSize(is64) <= |m|
  {
    if is64 then
      Phdr(ReadWord(m, a), ReadQuad(m, a + 8), ReadQuad(m, a + 24), ReadQuad(m, a + 32), ReadQuad(m, a + 40))
    else
      Phdr(ReadWord(m, a), ReadWord(m, a + 4), ReadWord(m, a + 12), ReadWord(m, a + 16), ReadWord(m, a + 20))
  }

  /** Where a 32-bit ELF header holds its fields. */
  lemma EhdrLayout32(m: seq<Byte>, a: nat, h: Ehdr)
    requires a + 52 <= |m|
    requires h.etype < 0x1_0000 && h.machine < 0x1_0000 && h.phentsize < 0x1_0000 && h.phnum < 0x1_0000
    requires h.entry < 0x1_0000_0000 && h.phoff < 0x1_0000_0000
    requires m[a + 16..a + 18] == HalfBytes(h.etype) && m[a + 18..a + 20] == HalfBytes(h.machine)
    requires m[a + 20..a + 24] == WordBytes(h.version) && m[a + 24..a + 28] == WordBytes(h.entry)
    requires m[a + 28..a + 32] == WordBytes(h.phoff)
    requires m[a + 42..a + 44] == HalfBytes(h.phentsize) && m[a + 44..a + 46] == HalfBytes(h.phnum)
    ensures ReadEhdr(m, a, false) == h
  {
    hide WordBytes, HalfBytes, ReadWord, ReadHalf;
    ReadBackHalf(m, a + 16, h.etype);
    ReadBackHalf(m, a + 18, h.machine);
    ReadBackWord(m, a + 20, h.version);
    ReadBackWord(m, a + 24, h.entry);
    ReadBackWord(m, a + 28, h.phoff);
    ReadBackHalf(m, a + 42, h.phentsize);
    ReadBackHalf(m, a + 44, h.phnum);
  }

  /** Where a 64-bit ELF header holds its fields. */
  lemma EhdrLayout64(m: seq<Byte>, a: nat, h: Ehdr)
    requires a + 64 <= |m|
    requires h.etype < 0x1_0000 && h.machine < 0x1_0000 && h.phentsize < 0x1_0000 && h.phnum < 0x1_0000
    requires m[a + 16..a + 18] == HalfBytes(h.etype) && m[a + 18..a + 20] == HalfBytes(h.machine)
    requires m[a + 20..a + 24] == WordBytes(h.version) && m[a + 24..a + 32] == QuadBytes(h.entry)
    requires m[a + 32..a + 40] == QuadBytes(h.phoff)
    requires m[a + 54..a + 56] == HalfBytes(h.phentsize) && m[a + 56..a + 58] == HalfBytes(h.phnum)
    ensures ReadEhdr(m, a, true) == h
  {
    hide WordBytes, HalfBytes, QuadBytes, ReadWord, ReadHalf, ReadQuad;
    ReadBackHalf(m, a + 16, h.etype);
    ReadBackHalf(m, a + 18, h.machine);
    ReadBackWord(m, a + 20, h.version);
    ReadBackQuad(m, a + 24, h.entry);
    ReadBackQuad(m, a + 32, h.phoff);
    ReadBackHalf(m, a + 54, h.phentsize);
    ReadBackHalf(m, a + 56, h.phnum);
  }

  /** Where a 32-bit program header holds its fields; the virtual address is in front of the physical one. */
  lemma PhdrLayout32(m: seq<Byte>, a: nat, p: Phdr, vaddr: Word)
    requires a + 32 <= |m|
    requires p.offset < 0x1_0000_0000 && p.paddr < 0x1_0000_0000
    requires p.filesz < 0x1_0000_0000 && p.memsz < 0x1_0000_0000
    requires m[a..a + 4] == WordBytes(p.ptype) && m[a + 4..a + 8] == WordBytes(p.offset)
    requires m[a + 8..a + 12] == WordBytes(vaddr) && m[a + 12..a + 16] == WordBytes(p.paddr)
    requires m[a + 16..a + 20] == WordBytes(p.filesz) && m[a + 20..a + 24] == WordBytes(p.memsz)
    ensures ReadPhdr(m, a, false) == p
  {
    hide WordBytes, ReadWord;
    ReadBackWord(m, a, p.ptype);
    ReadBackWord(m, a + 4, p.offset);
    ReadBackWord(m, a + 12, p.paddr);
    ReadBackWord(m, a + 16, p.filesz);
    ReadBackWord(m, a + 20, p.memsz);
  }

  /** Where a 64-bit program header holds its fields; the flags are behind the type. */
  lemma PhdrLayout64(m: seq<Byte>, a: nat, p: Phdr, flags: Word, vaddr: Quad)
    requires a + 56 <= |m|
    requires m[a..a + 4] == WordBytes(p.ptype) && m[a + 4..a + 8] == WordBytes(flags)
    requires m[a + 8..a + 16] == QuadBytes(p.offset) && m[a + 16..a + 24] == QuadBytes(vaddr)
    requires m[a + 24..a + 32] == QuadBytes(p.paddr)
    requires m[a + 32..a + 40] == QuadBytes(p.filesz) && m[a + 40..a + 48] == QuadBytes(p.memsz)
    ensures ReadPhdr(m, a, true) == p
  {
    hide WordBytes, QuadBytes, ReadWord, ReadQuad;
    ReadBackWord(m, a, p.ptype);
    ReadBackQuad(m, a + 8, p.offset);
    ReadBackQuad(m, a + 24, p.paddr);
    ReadBackQuad(m, a + 32, p.filesz);
    ReadBackQuad(m, a + 40, p.memsz);
  }

  lemma PhdrKept(m: seq<Byte>, m': seq<Byte>, a: nat, is64: bool)
    requires Same(m, m', a, a + PhdrSize(is64))
    ensures ReadPhdr(m, a, is64) == ReadPhdr(m', a, is64)
  {
  }

  lemma EhdrKept(m: seq<Byte>, m': seq<Byte>, a: nat, is64: bool)
    requires Same(m, m', a, a + EhdrSize(is64))
    ensures ReadEhdr(m, a, is64) == ReadEhdr(m', a, is64)
  {
  }

  /** The address of program header i, in 32 bits. */
  function PhdrAddress(base: Word, h: Ehdr, i: nat): Word
  {
    Wrap(base as int + h.phoff + i * h.phentsize)
  }

  /** All n program headers lie in memory. */
  ghost predicate HeadersReadable(m: seq<Byte>, base: Word, h: Ehdr, is64: bool, n: nat)
  {
    forall i :: 0 <= i < n ==> PhdrAddress(base, h, i) + PhdrSize(is64) <= |m|
  }

  /** The first n program headers. */
  ghost function Phdrs(m: seq<Byte>, base: Word, h: Ehdr, is64: bool, n: nat): (r: seq<Phdr>)
    requires HeadersReadable(m, base, h, is64, n)
    ensures |r| == n
  {
    if n == 0 then [] else Phdrs(m, base, h, is64, n - 1) + [ReadPhdr(m, PhdrAddress(base, h, n - 1), is64)]
  }

  /** The operands generated for a header, truncated to 32 bits. */
  function SegmentOf(base: Word, p: Phdr): Segment
  {
    Segment(Wrap(p.paddr), Wrap(base as int + p.offset), Wrap(p.filesz), Wrap(p.memsz as int - p.filesz))
  }

  /** The segments of the loadable headers, in order. */
  function Segments(base: Word, phs: seq<Phdr>): seq<Segment>
  {
    if phs == [] then []
    else
      var p := phs[|phs| - 1];
      Segments(base, phs[..|phs| - 1]) + (if p.ptype == 1 then [SegmentOf(base, p)] else [])
  }

  method ByteOut(mem: array<Byte>, code: Word, byte: Byte) returns (next: Word)
    requires code + 1 < 0x1_0000_0000 && code + 1 <= mem.Length
    modifies mem
    ensures next == code + 1
    ensures mem[..] == Poke(old(mem[..]), code, [byte])
  {
    mem[code] := byte;
    next := code + 1;
  }

  /** MOV r32, imm32. */
  method GenMov(mem: array<Byte>, code: Word, reg: nat, constant: Word) returns (next: Word)
    requires reg < 8
    requires code + 5 < 0x1_0000_0000 && code + 5 <= mem.Length
    modifies mem
    ensures next == code + 5
    ensures mem[..] == Poke(old(mem[..]), code, Encode(MovImm(reg, constant)))
  {
    assert Or(0xB8, reg) == 0xB8 + reg by {
      assert Pow(2, 3) == 8;
      OrDisjoint(0xB8, reg, 3);
    }
    ghost var m := mem[..];
    next := ByteOut(mem, code, Or(0xB8, reg));
    StoreBytes(mem, next, WordBytes(constant));
    PokePoke(m, code, [0xB8 + reg], WordBytes(constant));
    next := next + 4;
  }

  /** A two-byte instruction. */
  method GenPair(mem: array<Byte>, code: Word, first: Byte, second: Byte) returns (next: Word)
    requires code + 2 < 0x1_0000_0000 && code + 2 <= mem.Length
    modifies mem
    ensures next == code + 2
    ensures mem[..] == Poke(old(mem[..]), code, [first, second])
  {
    ghost var m := mem[..];
    next := ByteOut(mem, code, first);
    next := ByteOut(mem, next, second);
    PokePoke(m, code, [first], [second]);
    assert [first] + [second] == [first, second];
  }

  method GenJmpEdx(mem: array<Byte>, code: Word) returns (next: Word)
    requires code + 2 < 0x1_0000_0000 && code + 2 <= mem.Length
    modifies mem
    ensures next == code + 2
    ensures mem[..] == Poke(old(mem[..]), code, Encode(JmpEdx))
  {
    next := GenPair(mem, code, 0xFF, 0xE2);
  }

  /** The program prog has been written at start, up to the cursor; the rest of m0 is unchanged. */
  ghost predicate Emitted(m0: seq<Byte>, m: seq<Byte>, start: nat, code: nat, prog: seq<Instr>)
  {
    && Encodable(prog)
    && code == start + |EncodeAll(prog)| <= |m0|
    && m == Poke(m0, start, EncodeAll(prog))
  }

  lemma EmittedEnd(m0: seq<Byte>, m: seq<Byte>, start: nat, code: nat, prog: seq<Instr>)
    requires Emitted(m0, m, start, code, prog)
    ensures Encodable(prog) && code == start + |EncodeAll(prog)| <= |m0| == |m|
  {
  }

  lemma EmitNothing(m: seq<Byte>, start: nat)
    requires start <= |m|
    ensures Emitted(m, m, start, start, [])
  {
    PokeNothing(m, start);
  }

  lemma EmitOne(m0: seq<Byte>, m: seq<Byte>, start: nat, code: nat, prog: seq<Instr>, i: Instr)
    requires Emitted(m0, m, start, code, prog)
    requires i.MovImm? ==> i.reg < 8
    requires code + Length(i) <= |m0|
    ensures Emitted(m0, Poke(m, code, Encode(i)), start, code + Length(i), prog + [i])
  {
    hide Encode, Poke;
    EncodeAllAppend(prog, [i]);
    assert [i][1..] == [];
    assert EncodeAll([i]) == Encode(i) + EncodeAll([]) == Encode(i);
    PokePoke(m0, start, EncodeAll(prog), Encode(i));
  }

  /** Emit the code that copies len bytes from src to target and zeroes fill bytes behind them. */
  method GenElfSegment(mem: array<Byte>, code: Word, target: Word, src: Word, len: Word, fill: Word,
                       ghost m0: seq<Byte>, ghost start: nat, ghost prog: seq<Instr>)
    returns (next: Word)
    requires code + 24 < 0x1_0000_0000 && code + 24 <= mem.Length
    requires |m0| == mem.Length && Emitted(m0, mem[..], start, code, prog)
    modifies mem
    ensures next == code + 24
    ensures Emitted(m0, mem[..], start, next, prog + SegmentCode(Segment(target, src, len, fill)))
  {
    hide Emitted, Poke;
    ghost var p := prog;
    next := GenMov(mem, code, 7, target);
    EmitOne(m0, old(mem[..]), start, code, p, MovImm(7, target));
    p := p + [MovImm(7, target)];
    ghost var m1 := mem[..];
    next := GenMov(mem, next, 6, src);
    EmitOne(m0, m1, start, code + 5, p, MovImm(6, src));
    p := p + [MovImm(6, src)];
    ghost var m2 := mem[..];
    next := GenMov(mem, next, 1, len);
    EmitOne(m0, m2, start, code + 10, p, MovImm(1, len));
    p := p + [MovImm(1, len)];
    ghost var m3 := mem[..];
    next := GenPair(mem, next, 0xF3, 0xA4);
    EmitOne(m0, m3, start, code + 15, p, RepMovsb);
    p := p + [RepMovsb];
    ghost var m4 := mem[..];
    next := GenMov(mem, next, 1, fill);
    EmitOne(m0, m4, start, code + 17, p, MovImm(1, fill));
    p := p + [MovImm(1, fill)];
    ghost var m5 := mem[..];
    next := GenPair(mem, next, 0xF3, 0xAA);
    EmitOne(m0, m5, start, code + 22, p, RepStosb);
    assert p + [RepStosb] == prog + SegmentCode(Segment(target, src, len, fill));
  }

  /** The code of the segments of the first n headers. */
  ghost function HeadersCode(m: seq<Byte>, base: Word, h: Ehdr, is64: bool, n: nat): seq<Instr>
    requires HeadersReadable(m, base, h, is64, n)
  {
    SegmentsCode(Segments(base, Phdrs(m, base, h, is64, n)))
  }

  lemma {:induction false} SegmentsCodeAppend(x: seq<Segment>, y: seq<Segment>)
    ensures SegmentsCode(x + y) == SegmentsCode(x) + SegmentsCode(y)
  {
    if x == [] {
      assert x + y == y;
    } else {
      assert (x + y)[1..] == x[1..] + y;
      SegmentsCodeAppend(x[1..], y);
    }
  }

  lemma SegmentsSnoc(base: Word, phs: seq<Phdr>, p: Phdr)
    ensures Segments(base, phs + [p]) == Segments(base, phs) + (if p.ptype == 1 then [SegmentOf(base, p)] else [])
  {
    assert (phs + [p])[..|phs|] == phs;
  }

  lemma OneMoreSegment(segs: seq<Segment>, g: Segment)
    ensures SegmentsCode(segs + [g]) == SegmentsCode(segs) + SegmentCode(g)
  {
    SegmentsCodeAppend(segs, [g]);
    assert [g][1..] == [];
    assert SegmentsCode([g]) == SegmentCode(g) + SegmentsCode([]);
  }

  /** One more header: its code follows, if it is loadable. */
  lemma HeadersCodeStep(m: seq<Byte>, base: Word, h: Ehdr, is64: bool, n: nat, p: Phdr)
    requires HeadersReadable(m, base, h, is64, n + 1)
    requires p == ReadPhdr(m, PhdrAddress(base, h, n), is64)
    ensures HeadersCode(m, base, h, is64, n + 1)
         == HeadersCode(m, base, h, is64, n) + (if p.ptype == 1 then SegmentCode(SegmentOf(base, p)) else [])
  {
    hide ReadPhdr, SegmentOf, SegmentCode, Segments;
    var phs := Phdrs(m, base, h, is64, n);
    assert Phdrs(m, base, h, is64, n + 1) == phs + [p];
    SegmentsSnoc(base, phs, p);
    if p.ptype == 1 {
      OneMoreSegment(Segments(base, phs), SegmentOf(base, p));
    } else {
      assert Segments(base, phs) + [] == Segments(base, phs);
    }
  }

  lemma {:induction false} SegmentCount(m: seq<Byte>, base: Word, h: Ehdr, is64: bool, i: nat, n: nat)
    requires i <= n
    requires HeadersReadable(m, base, h, is64, n)
    ensures |Segments(base, Phdrs(m, base, h, is64, i))| <= |Segments(base, Phdrs(m, base, h, is64, n))|
  {
    hide ReadPhdr, SegmentOf, PhdrAddress, PhdrSize;
    if i < n {
      SegmentCount(m, base, h, is64, i, n - 1);
      SegmentsSnoc(base, Phdrs(m, base, h, is64, n - 1), ReadPhdr(m, PhdrAddress(base, h, n - 1), is64));
    }
  }

  /** The end of the code for the image: 24 bytes for each segment and 12 for the tail. */
  ghost function RoomEnd(m: seq<Byte>, base: Word, h: Ehdr, is64: bool, start: nat): nat
    requires HeadersReadable(m, base, h, is64, h.phnum)
  {
    start + 24 * |Segments(base, Phdrs(m, base, h, is64, h.phnum))| + 12
  }

  /** Where the code for the image goes: it stays clear of the headers, which are read while it is written. */
  ghost predicate RoomForCode(m: seq<Byte>, base: Word, h: Ehdr, is64: bool, start: nat)
  {
    && HeadersReadable(m, base, h, is64, h.phnum)
    && var end := RoomEnd(m, base, h, is64, start);
    && end < 0x1_0000_0000 && end <= |m|
    && base + EhdrSize(is64) <= |m| && h == ReadEhdr(m, base, is64)
    && Apart(base, base + EhdrSize(is64), start, end)
    && forall i :: 0 <= i < h.phnum ==>
         Apart(PhdrAddress(base, h, i), PhdrAddress(base, h, i) + PhdrSize(is64), start, end)
  }

  lemma RoomIsReadable(m: seq<Byte>, base: Word, h: Ehdr, is64: bool, start: nat)
    requires RoomForCode(m, base, h, is64, start)
    ensures HeadersReadable(m, base, h, is64, h.phnum)
    ensures start < |m|
    ensures HeadersCode(m, base, h, is64, 0) == []
  {
  }

  lemma CodeLength(segs: seq<Segment>)
    ensures Encodable(SegmentsCode(segs)) && |EncodeAll(SegmentsCode(segs))| == 24 * |segs|
  {
    hide SegmentsCode;
    assert SegmentsCode(segs) + [] == SegmentsCode(segs);
    ProgramLength(segs, []);
  }

  /** The cursor never passes the end of the code. */
  lemma CodeBelow(m: seq<Byte>, base: Word, h: Ehdr, is64: bool, start: Word, i: nat)
    requires HeadersReadable(m, base, h, is64, h.phnum) && i <= h.phnum
    ensures HeadersReadable(m, base, h, is64, i)
    ensures Encodable(HeadersCode(m, base, h, is64, i))
    ensures |EncodeAll(HeadersCode(m, base, h, is64, i))| == 24 * |Segments(base, Phdrs(m, base, h, is64, i))|
    ensures start + |EncodeAll(HeadersCode(m, base, h, is64, i))| + 12 <= RoomEnd(m, base, h, is64, start)
  {
    hide SegmentsCode, Segments, EncodeAll, Phdrs, PhdrAddress, Encodable;
    CodeLength(Segments(base, Phdrs(m, base, h, is64, i)));
    SegmentCount(m, base, h, is64, i, h.phnum);
  }

  /** Bytes clear of the whole code are untouched by the part of it that has been written. */
  lemma EmittedClear(m0: seq<Byte>, m: seq<Byte>, start: nat, code: nat, prog: seq<Instr>, lo: nat, hi: nat, end: nat)
    requires Emitted(m0, m, start, code, prog) && code <= end && lo <= hi <= |m0| && Apart(lo, hi, start, end)
    ensures Same(m0, m, lo, hi)
  {
    hide EncodeAll, Poke;
    PokeFacts(m0, start, EncodeAll(prog));
  }

  /** The cursor never passes the end of the code, so the headers to read next are as they were. */
  lemma HeaderUntouched(m0: seq<Byte>, m: seq<Byte>, base: Word, h: Ehdr, is64: bool, start: Word, code: Word, i: nat)
    requires i <= h.phnum
    requires RoomForCode(m0, base, h, is64, start)
    requires Emitted(m0, m, start, code, HeadersCode(m0, base, h, is64, i))
    ensures |m| == |m0| && base + EhdrSize(is64) <= |m| && ReadEhdr(m, base, is64) == h
    ensures i < h.phnum ==> ReadPhdr(m, PhdrAddress(base, h, i), is64) == ReadPhdr(m0, PhdrAddress(base, h, i), is64)
  {
    hide SegmentsCode, Segments, EncodeAll, Encodable, Emitted, PhdrSize, EhdrSize, ReadPhdr, ReadEhdr, RoomEnd;
    hide HeadersCode, PhdrAddress;
    var prog, end := HeadersCode(m0, base, h, is64, i), RoomEnd(m0, base, h, is64, start);
    CodeBelow(m0, base, h, is64, start, i);
    EmittedEnd(m0, m, start, code, prog);
    EmittedClear(m0, m, start, code, prog, base, base + EhdrSize(is64), end);
    EhdrKept(m0, m, base, is64);
    if i < h.phnum {
      var a := PhdrAddress(base, h, i);
      EmittedClear(m0, m, start, code, prog, a, a + PhdrSize(is64), end);
      PhdrKept(m0, m, a, is64);
    }
  }

  /** A loadable header leaves room for its code and the tail. */
  lemma CodeFits(m0: seq<Byte>, base: Word, h: Ehdr, is64: bool, start: Word, code: Word, i: nat)
    requires i < h.phnum
    requires RoomForCode(m0, base, h, is64, start)
    requires Encodable(HeadersCode(m0, base, h, is64, i))
    requires code == start + |EncodeAll(HeadersCode(m0, base, h, is64, i))|
    requires ReadPhdr(m0, PhdrAddress(base, h, i), is64).ptype == 1
    ensures code + 24 + 12 < 0x1_0000_0000 && code + 24 + 12 <= |m0|
  {
    hide SegmentsCode, Segments, EncodeAll, Encodable, PhdrSize, EhdrSize, ReadPhdr, ReadEhdr, PhdrAddress, HeadersCode;
    CodeBelow(m0, base, h, is64, start, i);
    CodeBelow(m0, base, h, is64, start, i + 1);
    SegmentsSnoc(base, Phdrs(m0, base, h, is64, i), ReadPhdr(m0, PhdrAddress(base, h, i), is64));
  }

  /** One round of the loop, which reads the ELF header again. */
  method LoadHeader(mem: array<Byte>, base: Word, ghost h: Ehdr, is64: bool, start: Word, code: Word, i: nat,
                    ghost m0: seq<Byte>)
    returns (next: Word)
    requires i < h.phnum
    requires RoomForCode(m0, base, h, is64, start) && |m0| == mem.Length
    requires Emitted(m0, mem[..], start, code, HeadersCode(m0, base, h, is64, i))
    modifies mem
    ensures Emitted(m0, mem[..], start, next, HeadersCode(m0, base, h, is64, i + 1))
  {
    hide SegmentOf, SegmentCode, Segments, SegmentsCode;
    ghost var prog := HeadersCode(m0, base, h, is64, i);
    HeaderUntouched(m0, mem[..], base, h, is64, start, code, i);
    var p := ReadPhdr(mem[..], PhdrAddress(base, ReadEhdr(mem[..], base, is64), i), is64);
    HeadersCodeStep(m0, base, h, is64, i, p);
    if p.ptype != 1 {
      next := code;
      assert prog + [] == prog;
      return;
    }
    CodeFits(m0, base, h, is64, start, code, i);
    var g := SegmentOf(base, p);
    next := GenElfSegment(mem, code, g.target, g.src, g.len, g.fill, m0, start, prog);
  }

  /**
   * The loop over the program headers, emitting the code of the loadable ones. The ELF header is
   * read again in every round.
   */
  method Loader(mem: array<Byte>, base: Word, ghost h: Ehdr, is64: bool, start: Word) returns (code: Word)
    requires RoomForCode(mem[..], base, h, is64, start)
    modifies mem
    ensures RoomForCode(old(mem[..]), base, h, is64, start)
    ensures Emitted(old(mem[..]), mem[..], start, code, HeadersCode(old(mem[..]), base, h, is64, h.phnum))
    ensures base + EhdrSize(is64) <= mem.Length && ReadEhdr(mem[..], base, is64) == h
  {
    hide RoomForCode, Emitted, SegmentsCode, Segments, HeadersCode, ReadEhdr, EhdrSize;
    ghost var m0 := mem[..];
    RoomIsReadable(m0, base, h, is64, start);
    code := start;
    EmitNothing(m0, start);
    HeaderUntouched(m0, m0, base, h, is64, start, start, 0);
    var i := 0;
    while i < ReadEhdr(mem[..], base, is64).phnum
      invariant 0 <= i <= h.phnum
      invariant base + EhdrSize(is64) <= mem.Length && ReadEhdr(mem[..], base, is64) == h
      invariant Emitted(m0, mem[..], start, code, HeadersCode(m0, base, h, is64, i))
      decreases h.phnum - i
    {
      code := LoadHeader(mem, base, h, is64, start, code, i, m0);
      i := i + 1;
      HeaderUntouched(m0, mem[..], base, h, is64, start, code, i);
    }
  }

  const MBI_MAGIC: Word := 0x2BADB002
  const MBI2_MAGIC: Word := 0x36D76289

  predicate IsElf64(m: seq<Byte>, base: Word)
    requires base + 52 <= |m|
  {
    m[base + 4] == 2
  }

  /** The ELF header lies in memory. */
  predicate HeaderReadable(m: seq<Byte>, base: Word)
  {
    && base + 52 <= |m|
    && (IsElf64(m, base) ==> base + 64 <= |m|)
  }

  function HeaderOf(m: seq<Byte>, base: Word): Ehdr
    requires HeaderReadable(m, base)
  {
    ReadEhdr(m, base, IsElf64(m, base))
  }

  /** The header passes every check of the loader: magic, class, type, machine, version, entry size. */
  predicate Accepted(m: seq<Byte>, base: Word)
    requires HeaderReadable(m, base)
  {
    var h := HeaderOf(m, base);
    && m[base] == 0x7F && m[base + 1] == 0x45 && m[base + 2] == 0x4C && m[base + 3] == 0x46
    && (m[base + 4] == 1 || m[base + 4] == 2)
    && h.etype == 2 && (h.machine == 3 || h.machine == 62) && h.version == 1
    && PhdrSize(IsElf64(m, base)) <= h.phentsize
  }

  lemma HalfIs(m: seq<Byte>, a: nat, h: nat)
    requires a + 2 <= |m| && h < 0x1_0000
    ensures ReadHalf(m, a) == h <==> m[a] == h % 0x100 && m[a + 1] == h / 0x100
  {
    ModUnique(ReadHalf(m, a), 0x100, m[a + 1], m[a]);
  }

  lemma WordIsOne(m: seq<Byte>, a: nat)
    requires a + 4 <= |m|
    ensures ReadWord(m, a) == 1 <==> m[a] == 1 && m[a + 1] == 0 && m[a + 2] == 0 && m[a + 3] == 0
  {
    hide ReadWord;
    ByteOrder(m, a);
  }

  /**
   * What the loader accepts, byte by byte: the ELF magic, class 32 or 64, an executable for the
   * 386 or x86-64 of version 1, and program headers at least as large as their class asks for.
   */
  lemma AcceptedMeans(m: seq<Byte>, base: Word)
    requires HeaderReadable(m, base)
    ensures Accepted(m, base) <==>
              && m[base] == 0x7F && m[base + 1] == 'E' as int && m[base + 2] == 'L' as int && m[base + 3] == 'F' as int
              && m[base + 16] == 2 && m[base + 17] == 0
              && (m[base + 18] == 3 || m[base + 18] == 62) && m[base + 19] == 0
              && m[base + 20] == 1 && m[base + 21] == 0 && m[base + 22] == 0 && m[base + 23] == 0
              && (|| (m[base + 4] == 1 && m[base + 42] as int + 0x100 * m[base + 43] as int >= 32)
                  || (m[base + 4] == 2 && m[base + 54] as int + 0x100 * m[base + 55] as int >= 56))
  {
    HalfIs(m, base + 16, 2);
    HalfIs(m, base + 18, 3);
    HalfIs(m, base + 18, 62);
    WordIsOne(m, base + 20);
    hide ReadWord, ReadQuad;
  }

  /** The program headers of the image. */
  ghost function ImageHeaders(m: seq<Byte>, base: Word): seq<Phdr>
    requires HeaderReadable(m, base)
    requires HeadersReadable(m, base, HeaderOf(m, base), IsElf64(m, base), HeaderOf(m, base).phnum)
  {
    Phdrs(m, base, HeaderOf(m, base), IsElf64(m, base), HeaderOf(m, base).phnum)
  }

  ghost predicate ImageFits(m: seq<Byte>, base: Word)
  {
    && HeaderReadable(m, base)
    && RoomForCode(m, base, HeaderOf(m, base), IsElf64(m, base), 0x7C00)
  }

  /** The trampoline for the image at base. */
  ghost function ImageProgram(m: seq<Byte>, base: Word, magic: Word): seq<Instr>
    requires ImageFits(m, base)
  {
    Program(Segments(base, ImageHeaders(m, base)), Wrap(HeaderOf(m, base).entry), magic)
  }

  /** The code behind the segments: load the entry point and the magic number, and jump. */
  method EmitTail(mem: array<Byte>, code: Word, entry: Word, magic: Word, ghost m0: seq<Byte>, ghost segs: seq<Segment>)
    requires |m0| == mem.Length
    requires 0x7C00 + 24 * |segs| + 12 < 0x1_0000_0000 && 0x7C00 + 24 * |segs| + 12 <= |m0|
    requires Emitted(m0, mem[..], 0x7C00, code, SegmentsCode(segs))
    modifies mem
    ensures Emitted(m0, mem[..], 0x7C00, 0x7C00 + 24 * |segs| + 12, Program(segs, entry, magic))
  {
    hide Poke;
    assert SegmentsCode(segs) + [] == SegmentsCode(segs);
    ProgramLength(segs, []);
    assert code == 0x7C00 + 24 * |segs|;
    hide Emitted, SegmentsCode, EncodeAll;
    ghost var p := SegmentsCode(segs);
    ghost var m1 := mem[..];
    var next := GenMov(mem, code, 2, entry);
    EmitOne(m0, m1, 0x7C00, code, p, MovImm(2, entry));
    p := p + [MovImm(2, entry)];
    ghost var m2 := mem[..];
    next := GenMov(mem, next, 0, magic);
    EmitOne(m0, m2, 0x7C00, code + 5, p, MovImm(0, magic));
    p := p + [MovImm(0, magic)];
    ghost var m3 := mem[..];
    next := GenJmpEdx(mem, next);
    EmitOne(m0, m3, 0x7C00, code + 10, p, JmpEdx);
    assert p + [JmpEdx] == Program(segs, entry, magic);
  }

  lemma EmittedBytes(m0: seq<Byte>, m: seq<Byte>, segs: seq<Segment>, entry: Word, magic: Word)
    requires Emitted(m0, m, 0x7C00, 0x7C00 + 24 * |segs| + 12, Program(segs, entry, magic))
    ensures 0x7C00 + 24 * |segs| + 12 <= |m|
    ensures m[0x7C00..0x7C00 + 24 * |segs| + 12] == TrampolineBytes(segs, entry, magic)
  {
    hide EncodeAll, Program, TrampolineBytes, Poke;
    ProgramBytes(segs, entry, magic);
    PokeFacts(m0, 0x7C00, EncodeAll(Program(segs, entry, magic)));
  }

  /**
   * Generate the trampoline for the ELF image at base. A header that fails a check stops the
   * machine; here that is the result false.
   */
  method GenerateTrampoline(mem: array<Byte>, base: Word, magic: Word) returns (ok: bool)
    requires HeaderReadable(mem[..], base)
    requires Accepted(mem[..], base) ==> ImageFits(mem[..], base)
    modifies mem
    ensures ok == old(Accepted(mem[..], base))
    ensures !ok ==> mem[..] == old(mem[..])
    ensures ok ==> old(ImageFits(mem[..], base))
    ensures ok ==> Emitted(old(mem[..]), mem[..], 0x7C00,
                           0x7C00 + 24 * |Segments(base, ImageHeaders(old(mem[..]), base))| + 12,
                           ImageProgram(old(mem[..]), base, magic))
    ensures ok ==> var segs := Segments(base, ImageHeaders(old(mem[..]), base));
                   && 0x7C00 + 24 * |segs| + 12 <= mem.Length
                   && mem[..][0x7C00..0x7C00 + 24 * |segs| + 12]
                      == TrampolineBytes(segs, Wrap(HeaderOf(old(mem[..]), base).entry), magic)
  {
    hide Emitted, EncodeAll, Poke, SegmentsCode, Segments, Phdrs, TrampolineBytes, Program, ReadEhdr, PhdrAddress;
    ok := Accepted(mem[..], base);
    if !ok {
      return;
    }
    ghost var m0 := mem[..];
    var is64 := IsElf64(mem[..], base);
    var code := Loader(mem, base, HeaderOf(mem[..], base), is64, 0x7C00);
    EmitTail(mem, code, Wrap(ReadEhdr(mem[..], base, is64).entry), magic, m0, Segments(base, ImageHeaders(m0, base)));
    EmittedBytes(m0, mem[..], Segments(base, ImageHeaders(m0, base)), Wrap(HeaderOf(m0, base).entry), magic);
  }
}

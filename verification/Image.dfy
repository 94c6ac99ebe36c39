/**
 * An ELF image means the same wherever the relocator has put it: its headers are read relative
 * to its start, and so are the bytes that the trampoline copies (standalone/elf.c).
 */
module Image {
  import opened Bits
  import opened Memory
  import opened X86
  import opened Trampoline
  import opened ElfLoader
  import opened BootImage

  /** Where program header i lies in the image. */
  function HeaderOffset(h: Ehdr, i: nat): nat
  {
    h.phoff + i * h.phentsize
  }

  /** The first n program headers lie inside the image. */
  ghost predicate HeadersInside(img: seq<Byte>, h: Ehdr, is64: bool, n: nat)
  {
    |img| < 0x1_0000_0000 && forall i :: 0 <= i < n ==> HeaderOffset(h, i) + PhdrSize(is64) <= |img|
  }

  /** A module that is as long as an ELF header, and holds its program headers when it is accepted. */
  ghost predicate ImageOk(img: seq<Byte>)
  {
    && 64 <= |img| < 0x1_0000_0000
    && (Accepted(img, 0) ==> HeadersInside(img, HeaderOf(img, 0), IsElf64(img, 0), HeaderOf(img, 0).phnum))
  }

  lemma AddressIsOffset(base: Word, h: Ehdr, i: nat, size: nat)
    requires base + HeaderOffset(h, i) + size < 0x1_0000_0000
    ensures PhdrAddress(base, h, i) == base + HeaderOffset(h, i)
  {
    assert base + HeaderOffset(h, i) == base as int + h.phoff + i * h.phentsize;
  }

  lemma InsideReadable(m: seq<Byte>, base: Word, size: nat, h: Ehdr, is64: bool, n: nat)
    requires base + size < 0x1_0000_0000 && base + size <= |m|
    requires forall i :: 0 <= i < n ==> HeaderOffset(h, i) + PhdrSize(is64) <= size
    ensures HeadersReadable(m, base, h, is64, n)
    ensures forall i :: 0 <= i < n ==> PhdrAddress(base, h, i) == base + HeaderOffset(h, i)
  {
    hide PhdrSize, HeaderOffset, PhdrAddress;
    forall i | 0 <= i < n
      ensures PhdrAddress(base, h, i) == base + HeaderOffset(h, i)
    {
      AddressIsOffset(base, h, i, PhdrSize(is64));
    }
  }

  lemma HalfMoves(m: seq<Byte>, base: nat, img: seq<Byte>, a: nat)
    requires base + |img| <= |m| && m[base..base + |img|] == img && a + 2 <= |img|
    ensures ReadHalf(m, base + a) == ReadHalf(img, a)
  {
    ByteMoves(m, base, img, a);
    ByteMoves(m, base, img, a + 1);
  }

  lemma QuadMoves(m: seq<Byte>, base: nat, img: seq<Byte>, a: nat)
    requires base + |img| <= |m| && m[base..base + |img|] == img && a + 8 <= |img|
    ensures ReadQuad(m, base + a) == ReadQuad(img, a)
  {
    hide ReadWord;
    WordMoves(m, base, img, a);
    WordMoves(m, base, img, a + 4);
  }

  lemma EhdrMoves(m: seq<Byte>, base: nat, img: seq<Byte>, is64: bool)
    requires base + |img| <= |m| && m[base..base + |img|] == img && 64 <= |img|
    ensures ReadEhdr(m, base, is64) == ReadEhdr(img, 0, is64)
  {
    hide ReadHalf, ReadWord, ReadQuad;
    HalfMoves(m, base, img, 16);
    HalfMoves(m, base, img, 18);
    WordMoves(m, base, img, 20);
    if is64 {
      QuadMoves(m, base, img, 24);
      QuadMoves(m, base, img, 32);
      HalfMoves(m, base, img, 54);
      HalfMoves(m, base, img, 56);
    } else {
      WordMoves(m, base, img, 24);
      WordMoves(m, base, img, 28);
      HalfMoves(m, base, img, 42);
      HalfMoves(m, base, img, 44);
    }
  }

  lemma PhdrMoves(m: seq<Byte>, base: nat, img: seq<Byte>, a: nat, is64: bool)
    requires base + |img| <= |m| && m[base..base + |img|] == img && a + PhdrSize(is64) <= |img|
    ensures ReadPhdr(m, base + a, is64) == ReadPhdr(img, a, is64)
  {
    hide ReadWord, ReadQuad;
    WordMoves(m, base, img, a);
    if is64 {
      QuadMoves(m, base, img, a + 8);
      QuadMoves(m, base, img, a + 24);
      QuadMoves(m, base, img, a + 32);
      QuadMoves(m, base, img, a + 40);
    } else {
      WordMoves(m, base, img, a + 4);
      WordMoves(m, base, img, a + 12);
      WordMoves(m, base, img, a + 16);
      WordMoves(m, base, img, a + 20);
    }
  }

  lemma {:induction false} PhdrsMove(m: seq<Byte>, base: Word, img: seq<Byte>, h: Ehdr, is64: bool, n: nat)
    requires base + |img| <= |m| && base + |img| < 0x1_0000_0000 && m[base..base + |img|] == img
    requires HeadersInside(img, h, is64, n)
    ensures HeadersReadable(m, base, h, is64, n) && HeadersReadable(img, 0, h, is64, n)
    ensures Phdrs(m, base, h, is64, n) == Phdrs(img, 0, h, is64, n)
  {
    hide PhdrSize, HeaderOffset, PhdrAddress, ReadPhdr;
    InsideReadable(m, base, |img|, h, is64, n);
    InsideReadable(img, 0, |img|, h, is64, n);
    if n > 0 {
      PhdrsMove(m, base, img, h, is64, n - 1);
      PhdrMoves(m, base, img, HeaderOffset(h, n - 1), is64);
    }
  }

  /** The program headers of an accepted image. */
  ghost function ElfHeaders(img: seq<Byte>): seq<Phdr>
    requires ImageOk(img) && Accepted(img, 0)
  {
    InsideReadable(img, 0, |img|, HeaderOf(img, 0), IsElf64(img, 0), HeaderOf(img, 0).phnum);
    ImageHeaders(img, 0)
  }

  lemma {:induction false} SegmentsCount(base: Word, phs: seq<Phdr>)
    ensures |Segments(base, phs)| == |Segments(0, phs)|
    decreases |phs|
  {
    if phs != [] {
      SegmentsCount(base, phs[..|phs| - 1]);
    }
  }

  lemma {:induction false} PhdrsIndex(img: seq<Byte>, h: Ehdr, is64: bool, n: nat, i: nat)
    requires HeadersInside(img, h, is64, n) && i < n
    ensures HeadersReadable(img, 0, h, is64, n)
    ensures HeaderOffset(h, i) + PhdrSize(is64) <= |img|
    ensures Phdrs(img, 0, h, is64, n)[i] == ReadPhdr(img, HeaderOffset(h, i), is64)
  {
    hide PhdrSize, HeaderOffset, PhdrAddress, ReadPhdr;
    InsideReadable(img, 0, |img|, h, is64, n);
    if i < n - 1 {
      PhdrsIndex(img, h, is64, n - 1, i);
    }
  }

  /** There are e_phnum program headers, e_phentsize bytes from one to the next, the first one at e_phoff. */
  lemma ElfHeadersAt(img: seq<Byte>, i: nat)
    requires ImageOk(img) && Accepted(img, 0) && i < HeaderOf(img, 0).phnum
    ensures |ElfHeaders(img)| == HeaderOf(img, 0).phnum
    ensures var a := HeaderOffset(HeaderOf(img, 0), i);
            && a + PhdrSize(img[4] == 2) <= |img| && ElfHeaders(img)[i] == ReadPhdr(img, a, img[4] == 2)
            && (i == 0 ==> a == HeaderOf(img, 0).phoff)
            && HeaderOffset(HeaderOf(img, 0), i + 1) == a + HeaderOf(img, 0).phentsize
  {
    hide Accepted, HeaderOf, ReadPhdr, PhdrSize;
    PhdrsIndex(img, HeaderOf(img, 0), IsElf64(img, 0), HeaderOf(img, 0).phnum, i);
    MulDistrib(i, 1, HeaderOf(img, 0).phentsize);
  }

  /** The end of the trampoline for an image. */
  ghost function CodeEnd(img: seq<Byte>): nat
    requires ImageOk(img) && Accepted(img, 0)
  {
    0x7C00 + 24 * |Segments(0, ElfHeaders(img))| + 12
  }

  /** The header of the image at base. */
  lemma ElfHeaderMoves(m: seq<Byte>, base: Word, img: seq<Byte>)
    requires base + |img| <= |m| && m[base..base + |img|] == img && 64 <= |img|
    ensures HeaderReadable(m, base) && HeaderReadable(img, 0)
    ensures IsElf64(m, base) == IsElf64(img, 0)
    ensures HeaderOf(m, base) == HeaderOf(img, 0)
    ensures Accepted(m, base) == Accepted(img, 0)
  {
    hide ReadEhdr;
    ByteMoves(m, base, img, 0);
    ByteMoves(m, base, img, 1);
    ByteMoves(m, base, img, 2);
    ByteMoves(m, base, img, 3);
    ByteMoves(m, base, img, 4);
    EhdrMoves(m, base, img, IsElf64(img, 0));
  }

  /** An image clear of the code can be loaded from any address, with the same headers. */
  lemma FitsAt(m: seq<Byte>, base: Word, img: seq<Byte>)
    requires base + |img| <= |m| && base + |img| < 0x1_0000_0000 && m[base..base + |img|] == img
    requires ImageOk(img) && Accepted(img, 0)
    requires CodeEnd(img) < 0x1_0000_0000 && CodeEnd(img) <= |m|
    requires Apart(base, base + |img|, 0x7C00, CodeEnd(img))
    ensures Accepted(m, base) && HeaderOf(m, base) == HeaderOf(img, 0)
    ensures ImageFits(m, base) && ImageHeaders(m, base) == ElfHeaders(img)
    ensures CodeEnd(img) == 0x7C00 + 24 * |Segments(base, ImageHeaders(m, base))| + 12
  {
    hide ReadEhdr, IsElf64, Accepted, Segments, PhdrAddress, HeaderOffset, PhdrSize;
    ElfHeaderMoves(m, base, img);
    var h, is64 := HeaderOf(img, 0), IsElf64(img, 0);
    InsideReadable(img, 0, |img|, h, is64, h.phnum);
    PhdrsMove(m, base, img, h, is64, h.phnum);
    InsideReadable(m, base, |img|, h, is64, h.phnum);
    SegmentsCount(base, ElfHeaders(img));
  }

  /**
   * What the loadable headers of an image make of the byte at address a: the last one whose
   * memory range holds a decides, with a byte of the image or zero.
   */
  ghost function ImageByte(img: seq<Byte>, phs: seq<Phdr>, a: nat, before: Byte): Byte
    requires ImageBelow(|img|, 0, phs)
    decreases |phs|
  {
    if phs == [] then before
    else
      var p := phs[|phs| - 1];
      if p.ptype == 1 && p.paddr <= a < p.paddr + p.memsz then
        if a - p.paddr < p.filesz then img[p.offset + (a - p.paddr)] else 0
      else ImageByte(img, phs[..|phs| - 1], a, before)
  }

  /** The header asks for the byte at address a. */
  ghost predicate Asks(p: Phdr, a: int)
  {
    p.ptype == 1 && p.paddr <= a < p.paddr + p.memsz
  }

  /** The last header that asks for a byte decides it. */
  lemma {:induction false} LastHeaderDecides(img: seq<Byte>, phs: seq<Phdr>, i: nat, a: nat, before: Byte)
    requires ImageBelow(|img|, 0, phs) && i < |phs| && Asks(phs[i], a)
    requires forall j :: i < j < |phs| ==> !Asks(phs[j], a)
    ensures ImageByte(img, phs, a, before)
         == if a < phs[i].paddr + phs[i].filesz then img[phs[i].offset + (a - phs[i].paddr)] else 0
    decreases |phs|
  {
    if i < |phs| - 1 {
      assert !Asks(phs[|phs| - 1], a);
      LastHeaderDecides(img, phs[..|phs| - 1], i, a, before);
    }
  }

  lemma {:induction false} PtLoadIsImageByte(m: seq<Byte>, base: nat, img: seq<Byte>, phs: seq<Phdr>, a: nat)
    requires base + |img| <= |m| && m[base..base + |img|] == img && a < |m|
    requires ImageBelow(|img|, 0, phs) && ImageBelow(|m|, base, phs)
    ensures PtLoadByte(m, base, phs, a) == ImageByte(img, phs, a, m[a])
    decreases |phs|
  {
    if phs != [] {
      var p := phs[|phs| - 1];
      PtLoadIsImageByte(m, base, img, phs[..|phs| - 1], a);
      if p.ptype == 1 && p.paddr <= a < p.paddr + p.memsz && a - p.paddr < p.filesz {
        ByteMoves(m, base, img, p.offset + (a - p.paddr));
      }
    }
  }

  lemma PlaceableInside(phs: seq<Phdr>, base: Word, img: seq<Byte>, codeEnd: nat)
    requires Placeable(phs, base, base + |img|, codeEnd)
    ensures ImageBelow(|img|, 0, phs)
  {
    forall i | 0 <= i < |phs| && phs[i].ptype == 1
      ensures 0 + phs[i].offset + phs[i].filesz <= |img|
    {
      assert PlaceableHeader(phs[i], base, base + |img|, codeEnd);
    }
  }

  /** The trampoline of the image at base is in memory, ready to run. */
  ghost predicate ReadyToRun(m: seq<Byte>, base: Word, img: seq<Byte>, magic: Word)
  {
    && base + |img| <= |m| && base + |img| < 0x1_0000_0000 && m[base..base + |img|] == img
    && ImageOk(img) && Accepted(img, 0)
    && CodeEnd(img) < 0x1_0000_0000 && Apart(base, base + |img|, 0x7C00, CodeEnd(img))
    && CodeAt(m, 0x7C00, Program(Segments(base, ElfHeaders(img)), Wrap(HeaderOf(img, 0).entry), magic))
  }

  lemma CodeIsEmitted(m: seq<Byte>, start: nat, prog: seq<Instr>)
    requires CodeAt(m, start, prog)
    ensures Emitted(m, m, start, start + |EncodeAll(prog)|, prog)
  {
    hide EncodeAll, Encodable;
    var data := EncodeAll(prog);
    forall k | 0 <= k < |m|
      ensures Poke(m, start, data)[k] == m[k]
    {
      if start <= k < start + |data| {
        ByteMoves(m, start, data, k - start);
      }
    }
    assert Poke(m, start, data) == m;
  }

  /** Every byte that a loadable header covers is as the image asks, every other one as in m. */
  ghost predicate ImageLoaded(img: seq<Byte>, m: seq<Byte>, m': seq<Byte>)
    requires ImageOk(img) && Accepted(img, 0)
  {
    && |m'| == |m| && ImageBelow(|img|, 0, ElfHeaders(img))
    && forall a :: 0 <= a < |m| ==> m'[a] == ImageByte(img, ElfHeaders(img), a, m[a])
  }

  /**
   * What a kernel finds at its segments: a segment of type PT_LOAD, unless a later one overlaps
   * it, holds its p_filesz bytes of the image from p_offset on, and zeros up to p_memsz, at p_paddr.
   */
  lemma SegmentLoaded(img: seq<Byte>, m: seq<Byte>, m': seq<Byte>, i: nat)
    requires ImageOk(img) && Accepted(img, 0) && ImageLoaded(img, m, m')
    requires i < |ElfHeaders(img)| && ElfHeaders(img)[i].ptype == 1
    requires ElfHeaders(img)[i].filesz <= ElfHeaders(img)[i].memsz
    requires ElfHeaders(img)[i].paddr + ElfHeaders(img)[i].memsz <= |m|
    requires forall j :: i < j < |ElfHeaders(img)| && ElfHeaders(img)[j].ptype == 1 ==>
               Disjunct(ElfHeaders(img)[i].paddr, ElfHeaders(img)[i].paddr + ElfHeaders(img)[i].memsz,
                        ElfHeaders(img)[j].paddr, ElfHeaders(img)[j].paddr + ElfHeaders(img)[j].memsz)
    ensures var p := ElfHeaders(img)[i];
            && p.offset + p.filesz <= |img| && |m'| == |m|
            && m'[p.paddr..p.paddr + p.filesz] == img[p.offset..p.offset + p.filesz]
            && forall a :: p.paddr + p.filesz <= a < p.paddr + p.memsz ==> m'[a] == 0
  {
    hide Accepted, HeadersInside, ElfHeaders, ImageByte;
    var phs := ElfHeaders(img);
    var p := phs[i];
    forall a: nat | p.paddr <= a < p.paddr + p.memsz
      ensures m'[a] == if a < p.paddr + p.filesz then img[p.offset + (a - p.paddr)] else 0
    {
      LastHeaderDecides(img, phs, i, a, m[a]);
    }
  }

  lemma MachineSize(s: Cpu)
    ensures Machine(s) <==> |s.mem| == 0x1_0000_0000
  {
  }

  lemma {:induction false} CodeUncovered(img: seq<Byte>, phs: seq<Phdr>, base: nat, codeEnd: nat, a: nat, before: Byte)
    requires Placeable(phs, base, base + |img|, codeEnd) && ImageBelow(|img|, 0, phs)
    requires 0x7C00 <= a < codeEnd
    ensures ImageByte(img, phs, a, before) == before
    decreases |phs|
  {
    if phs != [] {
      assert PlaceableHeader(phs[|phs| - 1], base, base + |img|, codeEnd);
      CodeUncovered(img, phs[..|phs| - 1], base, codeEnd, a, before);
    }
  }

  /**
   * Running the trampoline of an image at any address: the entry point is reached with the magic
   * number in EAX and EBX unchanged, every byte that a loadable header covers is as the image
   * asks, and every other byte, the code included, is as it was.
   */
  lemma ImageRuns(s: Cpu, base: Word, img: seq<Byte>, magic: Word)
    requires Machine(s) && s.eip == 0x7C00 && s.eax == 0
    requires ReadyToRun(s.mem, base, img, magic)
    requires Placeable(ElfHeaders(img), base, base + |img|, CodeEnd(img))
    ensures exists t: Cpu :: Enters(s, t, Wrap(HeaderOf(img, 0).entry), magic) && ImageLoaded(img, s.mem, t.mem)
  {
    hide Machine, Enters, CodeAt, Emitted, HeaderOf, Accepted, Segments, ElfHeaders, PtLoadByte, ImageByte, Placeable;
    hide ImageBelow, ImageFits, Program, CodeEnd;
    var phs := ElfHeaders(img);
    var prog := Program(Segments(base, phs), Wrap(HeaderOf(img, 0).entry), magic);
    MachineSize(s);
    FitsAt(s.mem, base, img);
    TrampolineLength(Segments(base, phs), Wrap(HeaderOf(img, 0).entry), magic);
    CodeIsEmitted(s.mem, 0x7C00, prog);
    BootRuns(s, s.mem, base, base + |img|, magic);
    var t: Cpu :| Enters(s, t, Wrap(HeaderOf(img, 0).entry), magic)
      && Booted(s.mem, s.mem, t.mem, base, phs, CodeEnd(img));
    PlaceableInside(phs, base, img, CodeEnd(img));
    forall a | 0 <= a < |s.mem|
      ensures t.mem[a] == ImageByte(img, phs, a, s.mem[a])
    {
      PtLoadIsImageByte(s.mem, base, img, phs, a);
      if 0x7C00 <= a < CodeEnd(img) {
        CodeUncovered(img, phs, base, CodeEnd(img), a, s.mem[a]);
      }
    }
    assert ImageLoaded(img, s.mem, t.mem);
  }
}

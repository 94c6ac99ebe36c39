/**
 * The generated trampoline, executed, loads the image as the program headers ask
 * (System V ABI, chapter 5, "Program Header") and enters it.
 */
module BootImage {
  import opened Bits
  import opened Memory
  import opened X86
  import opened Trampoline
  import opened ElfLoader

  /** Every loadable header takes its file bytes from addresses below size. */
  ghost predicate ImageBelow(size: nat, base: nat, phs: seq<Phdr>)
  {
    forall i :: 0 <= i < |phs| && phs[i].ptype == 1 ==> base + phs[i].offset + phs[i].filesz <= size
  }

  /**
   * What PT_LOAD headers mean for the byte at address a, given the file image at base: the last
   * loadable header whose memory range holds a decides; its first filesz bytes come from the
   * file, the rest are zero. Any other byte is as it was in m.
   */
  ghost function PtLoadByte(m: seq<Byte>, base: nat, phs: seq<Phdr>, a: nat): Byte
    requires a < |m|
    requires ImageBelow(|m|, base, phs)
    decreases |phs|
  {
    if phs == [] then m[a]
    else
      var p := phs[|phs| - 1];
      if p.ptype == 1 && p.paddr <= a < p.paddr + p.memsz then
        if a - p.paddr < p.filesz then m[base + p.offset + (a - p.paddr)] else 0
      else PtLoadByte(m, base, phs[..|phs| - 1], a)
  }

  /**
   * A loadable header that is well formed, fits 32-bit addresses, takes its bytes from the
   * image between base and end, and is placed clear of the image and of the code below codeEnd.
   */
  ghost predicate PlaceableHeader(p: Phdr, base: nat, end: nat, codeEnd: nat)
  {
    p.ptype == 1 ==>
      && p.filesz <= p.memsz
      && p.paddr < 0x1_0000_0000 && p.paddr + p.memsz <= 0x1_0000_0000
      && base + p.offset + p.filesz <= end && base + p.offset < 0x1_0000_0000
      && (p.memsz == 0 || Apart(p.paddr, p.paddr + p.memsz, base, end))
      && (p.memsz == 0 || Apart(p.paddr, p.paddr + p.memsz, 0x7C00, codeEnd))
  }

  ghost predicate Placeable(phs: seq<Phdr>, base: nat, end: nat, codeEnd: nat)
  {
    forall i :: 0 <= i < |phs| ==> PlaceableHeader(phs[i], base, end, codeEnd)
  }

  /** For a placeable header, truncating the operands to 32 bits loses nothing. */
  lemma OperandsExact(p: Phdr, base: Word, end: nat, codeEnd: nat)
    requires end < 0x1_0000_0000 && 0x7C00 < codeEnd
    requires p.ptype == 1 && PlaceableHeader(p, base, end, codeEnd)
    ensures SegmentOf(base, p) == Segment(p.paddr, base + p.offset, p.filesz, p.memsz - p.filesz)
  {
  }

  lemma PlacedSegment(p: Phdr, base: Word, end: nat, codeEnd: nat)
    requires end < 0x1_0000_0000 && 0x7C00 < codeEnd
    requires p.ptype == 1 && PlaceableHeader(p, base, end, codeEnd)
    ensures Loadable(SegmentOf(base, p), 0x7C00, codeEnd)
    ensures FromImage(SegmentOf(base, p), base, end)
    ensures SegmentOf(base, p).src + SegmentOf(base, p).len <= end
  {
    OperandsExact(p, base, end, codeEnd);
  }

  lemma {:induction false} PlacedSegments(phs: seq<Phdr>, base: Word, end: nat, codeEnd: nat)
    requires end < 0x1_0000_0000 && 0x7C00 < codeEnd
    requires Placeable(phs, base, end, codeEnd)
    ensures forall k :: 0 <= k < |Segments(base, phs)| ==>
              Loadable(Segments(base, phs)[k], 0x7C00, codeEnd) && FromImage(Segments(base, phs)[k], base, end)
    ensures SourcesBelow(Segments(base, phs), 0x1_0000_0000)
    ensures ImageBelow(0x1_0000_0000, base, phs)
    decreases |phs|
  {
    hide SegmentOf, Loadable, FromImage;
    if phs != [] {
      var init, p := phs[..|phs| - 1], phs[|phs| - 1];
      PlacedSegments(init, base, end, codeEnd);
      if p.ptype == 1 {
        PlacedSegment(p, base, end, codeEnd);
      }
    }
  }

  /** Outside the code, the last segment that covers a byte decides it as the headers say. */
  lemma {:induction false} FinalIsPtLoad(m: seq<Byte>, m0: seq<Byte>, base: Word, end: nat, codeEnd: nat,
                                         phs: seq<Phdr>, a: nat)
    requires end < 0x1_0000_0000 && 0x7C00 < codeEnd
    requires |m| == |m0| == 0x1_0000_0000 && a < |m|
    requires Placeable(phs, base, end, codeEnd)
    requires Same(m, m0, base, end)
    requires SourcesBelow(Segments(base, phs), |m|) && ImageBelow(|m0|, base, phs)
    ensures m[a] == m0[a] ==> FinalByte(m, Segments(base, phs), a) == PtLoadByte(m0, base, phs, a)
    ensures 0x7C00 <= a < codeEnd ==> FinalByte(m, Segments(base, phs), a) == m[a]
    decreases |phs|
  {
    hide SegmentOf;
    if phs != [] {
      var init, p := phs[..|phs| - 1], phs[|phs| - 1];
      var segs, before := Segments(base, phs), Segments(base, init);
      assert SourcesBelow(before, |m|) by {
        assert forall k :: 0 <= k < |before| ==> before[k] == segs[k];
      }
      FinalIsPtLoad(m, m0, base, end, codeEnd, init, a);
      if p.ptype == 1 {
        assert PlaceableHeader(p, base, end, codeEnd);
        OperandsExact(p, base, end, codeEnd);
        assert segs[..|segs| - 1] == before && segs[|segs| - 1] == SegmentOf(base, p);
        if p.paddr <= a < p.paddr + p.filesz {
          assert m[base + p.offset + (a - p.paddr)] == m0[base + p.offset + (a - p.paddr)];
        }
      } else {
        assert segs == before;
      }
    }
  }

  /** Outside the code the memory m' is what the headers of the image in m0 ask for; the code is as in m. */
  ghost predicate Booted(m0: seq<Byte>, m: seq<Byte>, m': seq<Byte>, base: nat, phs: seq<Phdr>, codeEnd: nat)
  {
    && |m0| == |m| == |m'| && ImageBelow(|m0|, base, phs)
    && forall a :: 0 <= a < |m0| ==> m'[a] == if 0x7C00 <= a < codeEnd then m[a] else PtLoadByte(m0, base, phs, a)
  }

  lemma EmittedIsCode(m0: seq<Byte>, m: seq<Byte>, start: nat, code: nat, prog: seq<Instr>)
    requires Emitted(m0, m, start, code, prog)
    requires code < 0x1_0000_0000 == |m0|
    ensures CodeAt(m, start, prog)
  {
  }

  /**
   * Start the processor at the generated trampoline with EAX = 0. It reaches the entry point of
   * the image with the magic number in EAX and EBX unchanged; every byte outside the code is as
   * the program headers of the original image ask, and the code itself is intact.
   */
  lemma BootRuns(s: Cpu, m0: seq<Byte>, base: Word, end: nat, magic: Word)
    requires Machine(s) && |m0| == 0x1_0000_0000
    requires end < 0x1_0000_0000
    requires ImageFits(m0, base)
    requires var codeEnd := 0x7C00 + 24 * |Segments(base, ImageHeaders(m0, base))| + 12;
             && Emitted(m0, s.mem, 0x7C00, codeEnd, ImageProgram(m0, base, magic))
             && Placeable(ImageHeaders(m0, base), base, end, codeEnd)
             && Apart(base, end, 0x7C00, codeEnd)
    requires s.eip == 0x7C00 && s.eax == 0
    ensures exists t: Cpu ::
              && Enters(s, t, Wrap(HeaderOf(m0, base).entry), magic)
              && Booted(m0, s.mem, t.mem, base, ImageHeaders(m0, base),
                        0x7C00 + 24 * |Segments(base, ImageHeaders(m0, base))| + 12)
  {
    hide Enters, PtLoadByte, FinalByte, LoadAll;
    var phs := ImageHeaders(m0, base);
    var segs := Segments(base, phs);
    var codeEnd := 0x7C00 + 24 * |segs| + 12;
    PlacedSegments(phs, base, end, codeEnd);
    EmittedIsCode(m0, s.mem, 0x7C00, codeEnd, ImageProgram(m0, base, magic));
    TrampolineRuns(s, segs, Wrap(HeaderOf(m0, base).entry), magic);
    var t: Cpu :| Enters(s, t, Wrap(HeaderOf(m0, base).entry), magic) && Loaded(s.mem, segs, t.mem);
    LoadedBytes(s.mem, segs, base, end);
    forall a | 0 <= a < |m0|
      ensures t.mem[a] == if 0x7C00 <= a < codeEnd then s.mem[a] else PtLoadByte(m0, base, phs, a)
    {
      FinalIsPtLoad(s.mem, m0, base, end, codeEnd, phs, a);
    }
    assert Booted(m0, s.mem, t.mem, base, phs, codeEnd);
  }
}

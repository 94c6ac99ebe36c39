/**
 * The kernel that standalone/elf.c has started: what it finds when the trampoline has run.
 */
module Kernel {
  import opened Bits
  import opened Memory
  import opened MemoryMap
  import opened Relocate
  import opened Mbi2
  import opened Convert
  import opened X86
  import opened Trampoline
  import opened ElfLoader
  import opened BootImage
  import opened Image
  import opened StartModule

  /** No loadable header of the image covers an address from lo to hi. */
  ghost predicate Spares(phs: seq<Phdr>, lo: int, hi: int)
  {
    forall i :: 0 <= i < |phs| && phs[i].ptype == 1 ==> Disjunct(phs[i].paddr, phs[i].paddr + phs[i].memsz, lo, hi)
  }

  lemma {:induction false} SparedByte(img: seq<Byte>, phs: seq<Phdr>, lo: int, hi: int, a: nat, before: Byte)
    requires ImageBelow(|img|, 0, phs) && Spares(phs, lo, hi) && lo <= a < hi
    ensures ImageByte(img, phs, a, before) == before
    decreases |phs|
  {
    if phs != [] {
      SparedByte(img, phs[..|phs| - 1], lo, hi, a, before);
    }
  }

  /** Loading an image leaves what its headers spare. */
  lemma SparedSame(img: seq<Byte>, m: seq<Byte>, m': seq<Byte>, lo: nat, hi: nat)
    requires ImageOk(img) && Accepted(img, 0) && ImageLoaded(img, m, m')
    requires Spares(ElfHeaders(img), lo, hi) && hi <= |m|
    ensures Same(m, m', lo, hi)
  {
    hide Accepted, ImageOk, ElfHeaders, Spares, ImageByte, ImageBelow;
    forall a | lo <= a < hi
      ensures m'[a] == m[a]
    {
      SparedByte(img, ElfHeaders(img), lo, hi, a, m[a]);
    }
  }

  /** Loading an image that spares the information leaves it finished. */
  lemma InfoSpared(img: seq<Byte>, m: seq<Byte>, m': seq<Byte>, block: nat, tags: seq<Tag>)
    requires ImageOk(img) && Accepted(img, 0) && ImageLoaded(img, m, m')
    requires Spares(ElfHeaders(img), block, block + 0x4000) && block + 0x4000 <= |m|
    requires Finished(m, block, tags) && 16 + PaddedSize(tags) <= 0x4000
    ensures Finished(m', block, tags)
  {
    hide Accepted, ImageOk, ElfHeaders, Spares, ImageLoaded, Finished, PaddedSize;
    SparedSame(img, m, m', block, block + 0x4000);
    FinishedKept(m, m', block, tags);
  }

  /** Loading an image that spares the block leaves the modules in it. */
  lemma ModulesSpared(img: seq<Byte>, m0: seq<Byte>, m: seq<Byte>, m': seq<Byte>, mods: nat, count: nat, block: nat,
                      size: nat)
    requires ImageOk(img) && Accepted(img, 0) && ImageLoaded(img, m, m')
    requires ModulesOk(m0, mods, count) && AllInPlace(m0, m, mods, count, block, size)
    requires Spares(ElfHeaders(img), block, block + size) && block + size <= |m|
    ensures AllInPlace(m0, m', mods, count, block, size)
  {
    hide Accepted, ImageOk, ElfHeaders, Spares, ImageLoaded, ModuleAt, Needs, StrLen, Terminated, Offset, CString;
    SparedSame(img, m, m', block, block + size);
    var needs := Needs(m0, mods, count);
    forall i | 0 <= i < count
      ensures InPlace(m0, m', mods, count, block, size, i)
    {
      var q, at := ModuleAt(m0, mods, i), block + Offset(needs, size, i);
      assert InPlace(m0, m, mods, count, block, size, i);
      OffsetStep(needs, size, i);
      OffsetOrder(needs, size, i + 1, count);
      SameSlice(m, m', at, at + (q.end - q.start));
      SameSlice(m, m', at + (q.end - q.start), at + Need(m0, q));
    }
  }

  /** Loading an image that spares the records leaves them pointing to the moved modules. */
  lemma RecordsSpared(img: seq<Byte>, m0: seq<Byte>, m: seq<Byte>, m': seq<Byte>, mods: nat, count: nat, block: nat,
                      size: nat)
    requires ImageOk(img) && Accepted(img, 0) && ImageLoaded(img, m, m')
    requires ModulesOk(m0, mods, count) && RecordsInPlace(m0, m, mods, count, block, size)
    requires Spares(ElfHeaders(img), mods, mods + 16 * count)
    ensures RecordsInPlace(m0, m', mods, count, block, size)
  {
    hide Accepted, ImageOk, ElfHeaders, Spares, ImageByte, ImageBelow, ModuleAt, NewPlace, ModuleOk;
    SparedSame(img, m, m', mods, mods + 16 * count);
    forall i | 0 <= i < count
      ensures ModuleAt(m', mods, i) == NewPlace(m0, mods, count, block, size, i)
    {
      RecordKept(m, m', mods, i);
    }
  }

  /** EBX points to the Multiboot 1 information, or to a Multiboot 2 one with the tags when the headers spare it. */
  ghost predicate InfoFound(t: Cpu, img: seq<Byte>, block: Word, tags: seq<Tag>, mbi: Word)
    requires ImageOk(img) && Accepted(img, 0)
  {
    && t.ebx == (if IsMbi2(img) then block else mbi)
    && (IsMbi2(img) && Spares(ElfHeaders(img), block, block + 0x4000) ==> Finished(t.mem, t.ebx, tags))
  }

  /** Neither a launch without relocation nor the kernel's headers touch the addresses from lo to hi. */
  ghost predicate LeftAlone(img: seq<Byte>, block: nat, lo: nat, hi: nat)
    requires ImageOk(img) && Accepted(img, 0)
  {
    && (IsMbi2(img) ==> Disjunct(lo, hi, block, block + 0x4000))
    && Disjunct(lo, hi, 0x7C00, CodeEnd(img))
    && Spares(ElfHeaders(img), lo, hi)
  }

  /** Everything that is left alone is as it was. */
  ghost predicate RestKept(m0: seq<Byte>, m: seq<Byte>, img: seq<Byte>, block: nat)
    requires ImageOk(img) && Accepted(img, 0)
  {
    && |m| == |m0|
    && forall lo: nat, hi: nat :: lo <= hi <= |m0| && LeftAlone(img, block, lo, hi) ==> Same(m0, m, lo, hi)
  }

  lemma SameThen(m: seq<Byte>, m': seq<Byte>, m'': seq<Byte>, lo: nat, hi: nat)
    requires Same(m, m', lo, hi) && Same(m', m'', lo, hi)
    ensures Same(m, m'', lo, hi)
  {
  }

  lemma LaunchKeeps(m0: seq<Byte>, m: seq<Byte>, img: seq<Byte>, base: Word, block: Word, tags: seq<Tag>, mbi: Word,
                    r: Launch, lo: nat, hi: nat)
    requires Launched(m0, m, img, base, block, tags, mbi, r) && lo <= hi <= |m0|
    requires LeftAlone(img, block, lo, hi)
    ensures Same(m0, m, lo, hi)
  {
    hide Accepted, ImageOk, IsMbi2, ElfHeaders, CodeEnd, Spares, CodeAt, Program, Segments, Finished, PaddedSize;
    CodeNotEmpty(img);
  }

  lemma RestIsKept(m0: seq<Byte>, m1: seq<Byte>, m: seq<Byte>, img: seq<Byte>, base: Word, block: Word, tags: seq<Tag>,
                   mbi: Word, r: Launch)
    requires Launched(m0, m1, img, base, block, tags, mbi, r) && ImageLoaded(img, m1, m) && |m1| == |m0|
    ensures RestKept(m0, m, img, block)
  {
    hide Accepted, ImageOk, IsMbi2, ElfHeaders, CodeEnd, Spares, CodeAt, Program, Segments, Finished, PaddedSize;
    hide ImageByte, ImageBelow;
    forall lo: nat, hi: nat | lo <= hi <= |m0| && LeftAlone(img, block, lo, hi)
      ensures Same(m0, m, lo, hi)
    {
      LaunchKeeps(m0, m1, img, base, block, tags, mbi, r, lo, hi);
      SparedSame(img, m1, m, lo, hi);
      SameThen(m0, m1, m, lo, hi);
    }
  }

  /**
   * The machine jumps to the trampoline that a launch has left. It reaches the entry point of the
   * first module with the right magic number in EAX; memory is what the loadable headers of the
   * module ask for, and unchanged elsewhere; a Multiboot 2 kernel finds its information in EBX;
   * what neither the launch nor the headers touch is as it was before the launch.
   */
  lemma LaunchedRuns(s: Cpu, m0: seq<Byte>, img: seq<Byte>, base: Word, block: Word, tags: seq<Tag>, mbi: Word,
                     r: Launch)
    requires Machine(s) && s.eip == 0x7C00 && s.eax == 0
    requires Launched(m0, s.mem, img, base, block, tags, mbi, r) && s.ebx == r.ebx
    requires |m0| == |s.mem| && (IsMbi2(img) ==> block + 0x4000 <= |s.mem|)
    requires Placeable(ElfHeaders(img), base, base + |img|, CodeEnd(img))
    ensures exists t: Cpu ::
              && Enters(s, t, Wrap(HeaderOf(img, 0).entry), if IsMbi2(img) then 0x36D7_6289 else 0x2BAD_B002)
              && ImageLoaded(img, s.mem, t.mem)
              && InfoFound(t, img, block, tags, mbi)
              && RestKept(m0, t.mem, img, block)
  {
    hide HeaderOf, Accepted, IsMbi2, ElfHeaders, CodeEnd, Placeable, Spares, ImageLoaded, Reaches, CodeAt, Finished;
    hide PaddedSize, KeptOutside, ChangedOnly, RestKept;
    ImageRuns(s, base, img, r.magic);
    var t: Cpu :| Enters(s, t, Wrap(HeaderOf(img, 0).entry), r.magic) && ImageLoaded(img, s.mem, t.mem);
    if IsMbi2(img) && Spares(ElfHeaders(img), block, block + 0x4000) {
      InfoSpared(img, s.mem, t.mem, block, tags);
    }
    RestIsKept(m0, s.mem, t.mem, img, base, block, tags, mbi, r);
    assert InfoFound(t, img, block, tags, mbi);
  }

  /** The tags that a launch without relocation should find, for a Multiboot 2 image. */
  ghost function LaunchTags(m: seq<Byte>, f: Fields, rsdp: Word, block: Word): seq<Tag>
    requires LaunchOk(m, f, rsdp, block)
  {
    var q := ModuleAt(m, f.modsAddr, 0);
    if IsMbi2(Body(m, q)) && Readable(m, Popped(f, q), rsdp) then ExpectedTags(m, Popped(f, q), rsdp) else []
  }

  /** Module i of m0, and its string and its record, are in m, each as far as it is left alone. */
  ghost predicate ModuleKept(m0: seq<Byte>, m: seq<Byte>, mods: nat, i: nat, img: seq<Byte>, block: nat)
    requires ImageOk(img) && Accepted(img, 0) && mods + 16 * i + 16 <= |m0|
  {
    var q := ModuleAt(m0, mods, i);
    && |m| == |m0|
    && (LeftAlone(img, block, mods + 16 * i, mods + 16 * i + 16) ==> ModuleAt(m, mods, i) == q)
    && (q.start <= q.end <= |m0| && LeftAlone(img, block, q.start, q.end) ==> Body(m, q) == Body(m0, q))
    && (Terminated(m0, q.text) && LeftAlone(img, block, q.text, q.text + StrLen(m0, q.text) + 1) ==>
          Terminated(m, q.text) && CString(m, q.text) == CString(m0, q.text))
  }

  lemma StringInside(m: seq<Byte>, a: nat)
    requires Terminated(m, a)
    ensures a + StrLen(m, a) + 1 <= |m|
  {
  }

  lemma OneModuleKept(m0: seq<Byte>, m: seq<Byte>, mods: nat, i: nat, img: seq<Byte>, block: nat)
    requires ImageOk(img) && Accepted(img, 0) && mods + 16 * i + 16 <= |m0|
    requires RestKept(m0, m, img, block)
    ensures ModuleKept(m0, m, mods, i, img, block)
  {
    hide Accepted, ImageOk, LeftAlone, ModuleAt, StrLen, Terminated;
    var q := ModuleAt(m0, mods, i);
    if LeftAlone(img, block, mods + 16 * i, mods + 16 * i + 16) {
      RecordKept(m0, m, mods, i);
    }
    if q.start <= q.end <= |m0| && LeftAlone(img, block, q.start, q.end) {
      SameSlice(m0, m, q.start, q.end);
    }
    if Terminated(m0, q.text) {
      StringInside(m0, q.text);
      if LeftAlone(img, block, q.text, q.text + StrLen(m0, q.text) + 1) {
        SameSlice(m0, m, q.text, q.text + StrLen(m0, q.text) + 1);
        StringAt(m0, q.text, m, q.text);
      }
    }
  }

  /**
   * End to end without relocation, when the modules are already there or are not moved: the run
   * of the kernel, in terms of the memory m0 that start_module found. The other modules are still
   * there, as far as they are clear of the information, the code and the kernel.
   */
  lemma UnmovedKernelRuns(s: Cpu, m0: seq<Byte>, f: Fields, rsdp: Word, block: Word, mbi: Word, r: Launch)
    requires Machine(s) && s.eip == 0x7C00 && s.eax == 0 && |m0| == |s.mem|
    requires LaunchOk(m0, f, rsdp, block)
    requires r.Boot? && LaunchResult(m0, s.mem, f, rsdp, block, mbi, r) && s.ebx == r.ebx
    requires var q := ModuleAt(m0, f.modsAddr, 0);
             Placeable(ElfHeaders(Body(m0, q)), q.start, q.end, CodeEnd(Body(m0, q)))
    ensures var img := Body(m0, ModuleAt(m0, f.modsAddr, 0));
            exists t: Cpu ::
              && Enters(s, t, Wrap(HeaderOf(img, 0).entry), if IsMbi2(img) then 0x36D7_6289 else 0x2BAD_B002)
              && ImageLoaded(img, s.mem, t.mem)
              && InfoFound(t, img, block, LaunchTags(m0, f, rsdp, block), mbi)
              && forall i :: 0 <= i < f.modsCount ==> ModuleKept(m0, t.mem, f.modsAddr, i, img, block)
  {
    hide HeaderOf, Accepted, HeadersInside, IsMbi2, ElfHeaders, CodeEnd, Placeable, InfoFound, ImageLoaded, Enters;
    hide CodeClear, Sources, Readable, ModuleKept, RestKept, ModuleAt, InfoFits, ExpectedTags, Launched, Popped;
    var q := ModuleAt(m0, f.modsAddr, 0);
    var img, tags := Body(m0, q), LaunchTags(m0, f, rsdp, block);
    LaunchedRuns(s, m0, img, q.start, block, tags, mbi, r);
    var t: Cpu :| Enters(s, t, Wrap(HeaderOf(img, 0).entry), if IsMbi2(img) then 0x36D7_6289 else 0x2BAD_B002)
                  && ImageLoaded(img, s.mem, t.mem) && InfoFound(t, img, block, tags, mbi)
                  && RestKept(m0, t.mem, img, block);
    forall i | 0 <= i < f.modsCount
      ensures ModuleKept(m0, t.mem, f.modsAddr, i, img, block)
    {
      OneModuleKept(m0, t.mem, f.modsAddr, i, img, block);
    }
  }

  /** The other modules and their records, as far as the headers of the kernel spare them. */
  ghost predicate ModulesFound(m: seq<Byte>, img: seq<Byte>, m0: seq<Byte>, f: Fields, block: Word)
    requires ImageOk(img) && Accepted(img, 0) && ModulesOk(m0, f.modsAddr, f.modsCount)
  {
    var mods, end, size := f.modsAddr, f.modsAddr + 16 * f.modsCount, BlockSize(m0, f);
    && (Spares(ElfHeaders(img), block, block + size) ==> AllInPlace(m0, m, mods, f.modsCount, block, size))
    && (Spares(ElfHeaders(img), mods, end) && Disjunct(mods, end, 0x7C00, CodeEnd(img)) ==>
          RecordsInPlace(m0, m, mods, f.modsCount, block, size))
  }

  lemma ModulesAreFound(m: seq<Byte>, m': seq<Byte>, img: seq<Byte>, m0: seq<Byte>, f: Fields, block: Word)
    requires ImageOk(img) && Accepted(img, 0) && ModulesOk(m0, f.modsAddr, f.modsCount)
    requires ImageLoaded(img, m, m') && block + BlockSize(m0, f) <= |m|
    requires AllInPlace(m0, m, f.modsAddr, f.modsCount, block, BlockSize(m0, f))
    requires Disjunct(f.modsAddr, f.modsAddr + 16 * f.modsCount, 0x7C00, CodeEnd(img)) ==>
               RecordsInPlace(m0, m, f.modsAddr, f.modsCount, block, BlockSize(m0, f))
    ensures ModulesFound(m', img, m0, f, block)
  {
    hide Accepted, ImageOk, ElfHeaders, CodeEnd, Spares, ImageLoaded, AllInPlace, RecordsInPlace, ModulesOk, TotalSize;
    hide Needs;
    var size := BlockSize(m0, f);
    if Spares(ElfHeaders(img), block, block + size) {
      ModulesSpared(img, m0, m, m', f.modsAddr, f.modsCount, block, size);
    }
    if Spares(ElfHeaders(img), f.modsAddr, f.modsAddr + 16 * f.modsCount)
      && Disjunct(f.modsAddr, f.modsAddr + 16 * f.modsCount, 0x7C00, CodeEnd(img)) {
      RecordsSpared(img, m0, m, m', f.modsAddr, f.modsCount, block, size);
    }
  }

  /** The tags that a relocating start should leave, for a Multiboot 2 image. */
  ghost function StartTags(m: seq<Byte>, f: Fields, rsdp: Word, block: Word): seq<Tag>
    requires f.modsCount > 0 && ModulesOk(m, f.modsAddr, f.modsCount)
  {
    if InputsOk(m, f, rsdp) then KernelTags(m, f, rsdp, block, BlockSize(m, f)) else []
  }

  /**
   * End to end: the machine jumps to the trampoline that a relocating start has left. It reaches
   * the entry point of the first module with the right magic number in EAX. Memory is what the
   * loadable headers of the original module ask for, and unchanged elsewhere. A Multiboot 2
   * kernel finds in EBX an information with the expected tags; either kind finds the modules,
   * and their records, at their new places. The headers only have to spare them.
   */
  lemma KernelRuns(s: Cpu, m0: seq<Byte>, f: Fields, rsdp: Word, block: Word, mbi: Word, r: Launch)
    requires Machine(s) && s.eip == 0x7C00 && s.eax == 0
    requires ModulesOk(m0, f.modsAddr, f.modsCount) && RelocationOk(m0, f, rsdp, block, BlockSize(m0, f))
    requires block + BlockSize(m0, f) <= |m0| == |s.mem|
    requires r.Boot? && RelocatedStart(m0, s.mem, f, rsdp, block, mbi, r) && s.ebx == r.ebx
    requires var img := Body(m0, ModuleAt(m0, f.modsAddr, 0));
             Placeable(ElfHeaders(img), block + 0x4000, block + 0x4000 + |img|, CodeEnd(img))
    ensures var img := Body(m0, ModuleAt(m0, f.modsAddr, 0));
            exists t: Cpu ::
              && Enters(s, t, Wrap(HeaderOf(img, 0).entry), if IsMbi2(img) then 0x36D7_6289 else 0x2BAD_B002)
              && ImageLoaded(img, s.mem, t.mem)
              && InfoFound(t, img, block, StartTags(m0, f, rsdp, block), mbi)
              && ModulesFound(t.mem, img, m0, f, block)
  {
    hide HeaderOf, Accepted, IsMbi2, ElfHeaders, CodeEnd, Placeable, Spares, ImageLoaded, Reaches, CodeAt;
    hide ModuleAt, KernelTags, InputsOk, Finished, Cursor, PaddedSize, TotalSize, Needs, AllInPlace, RecordsInPlace;
    hide ModulesFound;
    BlockHoldsExtra(m0, f);
    var img := Body(m0, ModuleAt(m0, f.modsAddr, 0));
    ImageRuns(s, block + 0x4000, img, r.magic);
    var t: Cpu :| Enters(s, t, Wrap(HeaderOf(img, 0).entry), r.magic) && ImageLoaded(img, s.mem, t.mem);
    var tags := StartTags(m0, f, rsdp, block);
    if IsMbi2(img) && Spares(ElfHeaders(img), block, block + 0x4000) {
      InfoSpared(img, s.mem, t.mem, block, tags);
    }
    ModulesAreFound(s.mem, t.mem, img, m0, f, block);
    assert InfoFound(t, img, block, tags, mbi);
  }
}

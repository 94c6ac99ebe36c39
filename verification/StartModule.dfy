/**
 * Starting the first module: relocate, pop, convert, generate the trampoline
 * (start_module in standalone/elf.c).
 */
module StartModule {
  import opened Bits
  import opened Memory
  import opened MemoryMap
  import opened Relocate
  import opened Mbi2
  import opened Convert
  import opened X86
  import opened Trampoline
  import opened ElfLoader
  import opened BootImage
  import opened Image

  /** There is nothing to start, an assertion stopped the machine, or the jump to the trampoline. */
  datatype Launch = NoModule | Halted | Boot(ebx: Word, magic: Word)

  lemma Halving(x: nat)
    ensures x / 2 / 2 == x / 4 && x / 4 / 2 == x / 8
    ensures x % 4 == 2 * (x / 2 % 2) + x % 2
    ensures x == 8 * (x / 8) + 4 * (x / 4 % 2) + x % 4
  {
    ModUnique(x, 4, x / 2 / 2, 2 * (x / 2 % 2) + x % 2);
    ModUnique(x, 8, x / 4 / 2, 4 * (x / 4 % 2) + x % 4);
  }

  lemma LowBit(h: nat, low: nat)
    ensures (2 * h + low) % 2 == low % 2
  {
  }

  /** The low bits of a number around bit 2. */
  lemma BitsOf(high: nat, bit: nat, low: nat)
    requires bit < 2 && low < 4
    ensures var x, y := 8 * high + 4 * bit + low, 8 * high + 4 + low;
            y % 2 == x % 2 && y / 4 % 2 == 1 && y / 8 == x / 8
    ensures 8 * high + 4 * bit + low < 0x1_0000_0000 ==> 8 * high + 4 + low < 0x1_0000_0000
  {
    var x, y := 8 * high + 4 * bit + low, 8 * high + 4 + low;
    ModUnique(x, 8, high, 4 * bit + low);
    ModUnique(y, 8, high, 4 + low);
    ModUnique(y, 4, 2 * high + 1, low);
    ModUnique(2 * high + 1, 2, high, 1);
    LowBit(4 * high + 2 * bit, low);
    LowBit(4 * high + 2, low);
  }

  lemma OrFour(x: nat)
    ensures Or(x, 4) == 8 * (x / 8) + 4 + x % 4
  {
    hide Or;
    OrOne(x / 4);
    OrDouble(x / 2, 1);
    OrDouble(x, 2);
    Halving(x);
  }

  lemma AndBits(x: nat)
    ensures And(x, 1) == x % 2
    ensures And(x, 4) == 4 * (x / 4 % 2)
    ensures And(x, 8) == 8 * (x / 8 % 2)
  {
    hide And;
    AndOne(x);
    AndOne(x / 4);
    AndOne(x / 8);
    AndDouble(x / 2, 1);
    AndDouble(x, 2);
    AndDouble(x / 4, 1);
    AndDouble(x / 2, 2);
    AndDouble(x, 4);
    Halving(x);
  }

  /** Setting the command line flag sets it, keeps the others, and stays a word. */
  lemma SetCmdlineFlag(flags: Word)
    ensures Or(flags, 4) < 0x1_0000_0000
    ensures And(Or(flags, 4), 4) != 0
    ensures And(Or(flags, 4), 1) == And(flags, 1)
    ensures And(Or(flags, 4), 8) == And(flags, 8)
  {
    hide Or, And;
    Halving(flags);
    OrFour(flags);
    AndBits(flags);
    AndBits(Or(flags, 4));
    BitsOf(flags / 8, flags / 4 % 2, flags % 4);
  }

  /** The flags: bit 0 for the memory map, bit 2 for the command line, bit 3 for modules. */
  lemma FlagMeans(flags: Word)
    ensures Flag(flags, 1) <==> flags % 2 == 1
    ensures Flag(flags, 4) <==> flags / 4 % 2 == 1
    ensures Flag(flags, 8) <==> flags / 8 % 2 == 1
  {
    hide And;
    AndBits(flags);
  }

  /** How many of the tags of command line, memory map and modules there are. */
  ghost function TagCounts(f: Fields): (int, int, int)
  {
    (if f.flags / 4 % 2 == 1 then 1 else 0, if f.flags % 2 == 1 then 1 else 0,
     if f.flags / 8 % 2 == 1 then f.modsCount else 0)
  }

  /**
   * The expected tags, one by one: the command line if bit 2 is set, the memory map if bit 0 is
   * set, the modules in the order of their records if bit 3 is set, the root pointer if there is one.
   */
  lemma ExpectedMeans(m: seq<Byte>, f: Fields, rsdp: Word)
    requires Readable(m, f, rsdp)
    ensures var tags, (c, b, n) := ExpectedTags(m, f, rsdp), TagCounts(f);
            && |tags| == c + b + n + (if rsdp != 0 then 1 else 0)
            && (c == 1 ==> Terminated(m, f.cmdline) && tags[0] == Tag(1, CString(m, f.cmdline)))
            && (b == 1 ==> MapOk(m, f.mmapAddr, f.mmapLength)
                           && tags[c] == MemmapTag(Regions(m, f.mmapAddr, f.mmapLength)))
            && (n > 0 ==> f.modsAddr + 16 * f.modsCount <= |m|)
            && (forall i :: 0 <= i < n ==>
                  var q := ModuleAt(m, f.modsAddr, i);
                  Terminated(m, q.text) && tags[c + b + i] == ModuleTag(q.start, q.end, CString(m, q.text)))
            && (rsdp != 0 ==> rsdp + 36 <= |m| && rsdp + RsdpLength(m, rsdp) <= |m|
                              && tags[c + b + n] == RsdpTag(m, rsdp))
  {
    hide Flag, Terminated, CString, ModuleAt, ModuleTag, MemmapTag, RsdpTag, MapOk, Regions, RsdpLength;
    FlagMeans(f.flags);
    var (c, b, n) := TagCounts(f);
    assert |CmdlineTags(m, f)| == c && |MapTags(m, f)| == b && |AllModuleTags(m, f)| == n;
    forall i | 0 <= i < n
      ensures var q := ModuleAt(m, f.modsAddr, i);
              Terminated(m, q.text) && AllModuleTags(m, f)[i] == ModuleTag(q.start, q.end, CString(m, q.text))
    {
      ModuleTagAt(m, f.modsAddr, f.modsCount, i);
    }
  }

  /** The information after the first module has been taken off as kernel: its string is the command line. */
  function Popped(f: Fields, q: Module): Fields
    requires f.modsCount > 0 && f.modsAddr + 16 < 0x1_0000_0000
  {
    SetCmdlineFlag(f.flags);
    Fields(Or(f.flags, 4), q.text, f.modsCount - 1, f.modsAddr + 16, f.mmapLength, f.mmapAddr)
  }

  /** Popping sets bit 2 of the flags and no other, and takes string, count and address from the list. */
  lemma PoppedMeans(f: Fields, q: Module)
    requires f.modsCount > 0 && f.modsAddr + 16 < 0x1_0000_0000
    ensures var p := Popped(f, q);
            && p.flags == (if f.flags / 4 % 2 == 1 then f.flags else f.flags + 4)
            && p.cmdline == q.text && p.modsAddr == f.modsAddr + 16 && p.modsCount == f.modsCount - 1
            && p.mmapLength == f.mmapLength && p.mmapAddr == f.mmapAddr
  {
    hide Or;
    OrFour(f.flags);
    Halving(f.flags);
  }

  /** The bytes of a module. */
  ghost function Body(m: seq<Byte>, q: Module): seq<Byte>
    requires q.start <= q.end <= |m|
  {
    m[q.start..q.end]
  }

  ghost predicate IsMbi2(img: seq<Byte>)
  {
    HasHeader(img, 0, |img|)
  }

  /** The trampoline for the image has its place, clear of the addresses lo to hi. */
  ghost predicate CodeClear(img: seq<Byte>, size: nat, lo: int, hi: int)
    requires ImageOk(img)
  {
    Accepted(img, 0) ==> CodeEnd(img) < 0x1_0000_0000 && CodeEnd(img) <= size && Apart(lo, hi, 0x7C00, CodeEnd(img))
  }

  /**
   * The information for a Multiboot 2 kernel q can be built at block: what it is built from is
   * readable, and the kernel either starts right there or lies clear of it, like the trampoline.
   */
  ghost predicate InfoReady(m: seq<Byte>, f: Fields, q: Module, rsdp: Word, block: Word)
    requires q.start <= q.end <= |m| && ImageOk(Body(m, q))
  {
    && block + 0x4000 < 0x1_0000_0000 && block + 0x4000 <= |m|
    && Sources(m, f, rsdp, block, block + 0x4000)
    && (q.start == block
        || (&& Apart(q.start, q.end, block, block + 0x4000)
            && CodeClear(Body(m, q), |m|, q.start, q.end) && CodeClear(Body(m, q), |m|, block, block + 0x4000)))
  }

  /** The kernel q is in memory, and nothing is in the way of its information, if it wants one, and its trampoline. */
  ghost predicate KernelReady(m: seq<Byte>, f: Fields, q: Module, rsdp: Word, block: Word)
  {
    && q.start <= q.end <= |m| && ImageOk(Body(m, q))
    && (if IsMbi2(Body(m, q)) then InfoReady(m, f, q, rsdp, block) else CodeClear(Body(m, q), |m|, q.start, q.end))
  }

  /** What has to hold of the first module, and for a Multiboot 2 kernel of the free space, when it is started. */
  ghost predicate LaunchOk(m: seq<Byte>, f: Fields, rsdp: Word, block: Word)
  {
    && f.modsCount > 0 && f.modsAddr + 16 * f.modsCount <= |m| && f.modsAddr + 16 < 0x1_0000_0000
    && KernelReady(m, Popped(f, ModuleAt(m, f.modsAddr, 0)), ModuleAt(m, f.modsAddr, 0), rsdp, block)
  }

  function Magic(mbi2: bool): Word
  {
    if mbi2 then MBI2_MAGIC else MBI_MAGIC
  }

  /** The image at base is ready to run, and its information is where EBX points. */
  ghost predicate Launched(m0: seq<Byte>, m: seq<Byte>, img: seq<Byte>, base: Word, block: Word, tags: seq<Tag>,
                           mbi: Word, r: Launch)
  {
    && r.Boot? && ReadyToRun(m, base, img, r.magic)
    && r.magic == Magic(IsMbi2(img)) && r.ebx == (if IsMbi2(img) then block else mbi)
    && (if IsMbi2(img) then
          && Finished(m, block, tags) && 16 + PaddedSize(tags) <= 0x4000
          && KeptOutside(m0, m, block, block + 0x4000, 0x7C00, CodeEnd(img))
        else ChangedOnly(m0, m, 0x7C00, CodeEnd(img)))
  }

  /** A finished information stays when its bytes do. */
  lemma FinishedKept(m: seq<Byte>, m': seq<Byte>, start: nat, tags: seq<Tag>)
    requires Finished(m, start, tags)
    requires Same(m, m', start, start + 16 + PaddedSize(tags))
    ensures Finished(m', start, tags)
  {
    hide ReadWord, Laid, TagAt, Cursor, PaddedSize;
    AtOrder(start, tags, 0, |tags|);
    AtIsPaddedSize(start, tags);
    WordKept(m, m', start);
    WordKept(m, m', start + 4);
    LaidKept(m, m', start, tags);
    TagKept(m, m', start + 8 + PaddedSize(tags), Tag(TAG_END, []));
  }

  lemma FinishedSize(start: nat, tags: seq<Tag>, size: nat)
    requires start % 8 == 0 && Cursor(start, tags) + 16 <= start + size
    ensures 16 + PaddedSize(tags) <= size
  {
    hide Cursor, PaddedSize;
    AtOrder(start, tags, 0, |tags|);
    AtIsPaddedSize(start, tags);
    Up8Facts(Cursor(start, tags));
  }

  lemma BodyKept(m0: seq<Byte>, m: seq<Byte>, q: Module, img: seq<Byte>, lo: nat, hi: nat)
    requires q.start <= q.end <= |m0| && img == Body(m0, q)
    requires Apart(q.start, q.end, lo, hi) && ChangedOnly(m0, m, lo, hi)
    ensures |m| == |m0| && q.start + |img| == q.end && m[q.start..q.start + |img|] == img
  {
    SameSlice(m0, m, q.start, q.end);
  }

  lemma InfoKept(m: seq<Byte>, m': seq<Byte>, block: nat, tags: seq<Tag>, codeEnd: nat)
    requires Finished(m, block, tags) && 16 + PaddedSize(tags) <= 0x4000
    requires ChangedOnly(m, m', 0x7C00, codeEnd) && Apart(block, block + 0x4000, 0x7C00, codeEnd)
    ensures Finished(m', block, tags)
  {
    hide ReadWord, Laid, TagAt, PaddedSize;
    FinishedKept(m, m', block, tags);
  }

  lemma EmittedChange(m0: seq<Byte>, m: seq<Byte>, code: nat, prog: seq<Instr>)
    requires Emitted(m0, m, 0x7C00, code, prog) && code < 0x1_0000_0000 == |m0|
    ensures ChangedOnly(m0, m, 0x7C00, code) && CodeAt(m, 0x7C00, prog)
  {
    EmittedIsCode(m0, m, 0x7C00, code, prog);
  }

  /** The image lies intact at base, clear of the code. */
  ghost predicate Emittable(m: seq<Byte>, base: Word, img: seq<Byte>)
  {
    && base + |img| < 0x1_0000_0000 && base + |img| <= |m| && m[base..base + |img|] == img
    && ImageOk(img) && Accepted(img, 0) && CodeClear(img, |m|, base, base + |img|)
  }

  /** Generate the trampoline for what lies at base: an image, if it is accepted. */
  method EmitImage(mem: array<Byte>, base: Word, magic: Word, ghost img: seq<Byte>) returns (ok: bool)
    requires mem.Length == 0x1_0000_0000 && HeaderReadable(mem[..], base)
    requires Accepted(mem[..], base) ==> Emittable(mem[..], base, img)
    modifies mem
    ensures ok == old(Accepted(mem[..], base))
    ensures ok ==> ReadyToRun(mem[..], base, img, magic)
    ensures ok ==> ChangedOnly(old(mem[..]), mem[..], 0x7C00, CodeEnd(img))
  {
    hide Accepted, HeaderOf, CodeEnd, Segments, Emitted, ImageFits, ElfHeaders, ImageHeaders, Program;
    ghost var m1 := mem[..];
    if Accepted(mem[..], base) {
      FitsAt(m1, base, img);
    }
    ok := GenerateTrampoline(mem, base, magic);
    if ok {
      assert ImageProgram(m1, base, magic) == Program(Segments(base, ElfHeaders(img)), Wrap(HeaderOf(img, 0).entry),
                                                      magic);
      EmittedChange(m1, mem[..], CodeEnd(img), ImageProgram(m1, base, magic));
      SameSlice(m1, mem[..], base, base + |img|);
    }
  }

  /** The total size of a small information leaves a zero where an ELF file has an F. */
  lemma InfoIsNoImage(m: seq<Byte>, block: Word, tags: seq<Tag>)
    requires Finished(m, block, tags) && 16 + PaddedSize(tags) <= 0x4000
    requires HeaderReadable(m, block)
    ensures !Accepted(m, block)
  {
    hide Laid, TagAt, PaddedSize, Named, ReadEhdr;
  }

  /** After the conversion the kernel is intact, or its header is overwritten by the information. */
  lemma AfterInfo(m0: seq<Byte>, m: seq<Byte>, f: Fields, q: Module, rsdp: Word, block: Word, tags: seq<Tag>)
    requires |m0| == 0x1_0000_0000 && q.start <= q.end <= |m0| && ImageOk(Body(m0, q))
    requires InfoReady(m0, f, q, rsdp, block) && Built(m0, m, block, tags)
    ensures ImageLeft(m, q, Body(m0, q), q.start == block)
  {
    hide Finished, PaddedSize, Accepted, Sources, CodeEnd, HeaderOf;
    if q.start == block {
      InfoIsNoImage(m, block, tags);
    } else {
      BodyKept(m0, m, q, Body(m0, q), block, block + 0x4000);
      ElfHeaderMoves(m, q.start, Body(m0, q));
    }
  }

  lemma FitsSize(m: seq<Byte>, f: Fields, rsdp: Word, block: Word)
    requires Readable(m, f, rsdp) && InfoFits(m, f, rsdp, block, 0x4000)
    ensures 16 + PaddedSize(ExpectedTags(m, f, rsdp)) <= 0x4000
  {
    hide Readable, ExpectedTags, Cursor, PaddedSize;
    FinishedSize(block, ExpectedTags(m, f, rsdp), 0x4000);
  }

  /** Without a conversion the kernel is where it was. */
  lemma WithoutInfo(m: seq<Byte>, q: Module)
    requires |m| == 0x1_0000_0000 && q.start <= q.end <= |m| && ImageOk(Body(m, q))
    requires CodeClear(Body(m, q), |m|, q.start, q.end)
    ensures ImageLeft(m, q, Body(m, q), false)
  {
    hide Accepted, CodeEnd, HeaderOf;
    ElfHeaderMoves(m, q.start, Body(m, q));
  }

  /** The information with the tags has been built in the free space at block. */
  ghost predicate Built(m0: seq<Byte>, m: seq<Byte>, block: nat, tags: seq<Tag>)
  {
    && Finished(m, block, tags) && 16 + PaddedSize(tags) <= 0x4000
    && ChangedOnly(m0, m, block, block + 0x4000)
  }

  /** The image can be emitted if it is accepted, unless its header is lost. */
  ghost predicate ImageLeft(m: seq<Byte>, q: Module, img: seq<Byte>, lost: bool)
    requires ImageOk(img)
  {
    && HeaderReadable(m, q.start)
    && (Accepted(m, q.start) <==> Accepted(img, 0) && !lost)
    && (Accepted(m, q.start) ==> Emittable(m, q.start, img))
  }

  /** The information for the kernel q, when its image asks for one. Zero stands for none. */
  method PrepareInfo(mem: array<Byte>, f: Fields, q: Module, block: Word, rsdp: Word, ghost img: seq<Byte>)
    returns (found: bool, ok: bool, info: Word)
    requires mem.Length == 0x1_0000_0000
    requires KernelReady(mem[..], f, q, rsdp, block) && img == Body(mem[..], q)
    modifies mem
    ensures found == IsMbi2(img)
    ensures found ==> Readable(old(mem[..]), f, rsdp)
    ensures !found ==> ok && mem[..] == old(mem[..])
    ensures found ==>
              && ok == InfoFits(old(mem[..]), f, rsdp, block, 0x4000)
              && (ok ==> info == block && Built(old(mem[..]), mem[..], block, ExpectedTags(old(mem[..]), f, rsdp)))
    ensures ok ==> ImageLeft(mem[..], q, img, found && q.start == block)
  {
    hide Accepted, ImageOk, Sources, Readable, ExpectedTags, HasHeader, Finished, CodeClear, Cursor, PaddedSize;
    hide ChangedOnly, ImageLeft, CodeEnd, InfoFits;
    ghost var m0 := mem[..];
    var at;
    found, at := FindHeader(mem, q.start, q.end - q.start);
    HeaderMoves(m0, q.start, img);
    ok, info := true, 0;
    if found {
      ok, info := ConvertToMbi2(mem, f, block, 0x4000, rsdp);
      if ok {
        ghost var tags := ExpectedTags(m0, f, rsdp);
        FitsSize(m0, f, rsdp, block);
        AfterInfo(m0, mem[..], f, q, rsdp, block, tags);
      }
    } else {
      WithoutInfo(m0, q);
    }
  }

  lemma BothChanges(m0: seq<Byte>, m1: seq<Byte>, m: seq<Byte>, lo: int, hi: int, lo': int, hi': int)
    requires ChangedOnly(m0, m1, lo, hi) && ChangedOnly(m1, m, lo', hi')
    ensures KeptOutside(m0, m, lo, hi, lo', hi')
  {
  }

  lemma ClearOfCode(m: seq<Byte>, f: Fields, q: Module, rsdp: Word, block: Word)
    requires q.start <= q.end <= |m| && ImageOk(Body(m, q)) && Accepted(Body(m, q), 0)
    requires InfoReady(m, f, q, rsdp, block) && q.start != block
    ensures Apart(block, block + 0x4000, 0x7C00, CodeEnd(Body(m, q)))
  {
    hide Accepted, ImageOk, Sources, CodeEnd;
  }

  /** Build the information and the trampoline for the module q, whose image is img. */
  method Prepare(mem: array<Byte>, f: Fields, q: Module, mbiAddr: Word, block: Word, rsdp: Word, ghost img: seq<Byte>)
    returns (r: Launch)
    requires mem.Length == 0x1_0000_0000
    requires KernelReady(mem[..], f, q, rsdp, block) && img == Body(mem[..], q)
    modifies mem
    ensures IsMbi2(img) ==> Readable(old(mem[..]), f, rsdp)
    ensures r.Boot? <==>
              && Accepted(img, 0)
              && (IsMbi2(img) ==> q.start != block && block != 0 && InfoFits(old(mem[..]), f, rsdp, block, 0x4000))
    ensures !r.Boot? ==> r == Halted
    ensures r.Boot? ==> Launched(old(mem[..]), mem[..], img, q.start, block,
                                 if IsMbi2(img) then ExpectedTags(old(mem[..]), f, rsdp) else [], mbiAddr, r)
  {
    hide Accepted, ImageOk, InfoReady, Readable, ExpectedTags, HasHeader, Finished, ReadyToRun, CodeEnd, CodeClear;
    hide PaddedSize, ChangedOnly, HeaderReadable, Emittable, IsMbi2, InfoFits, KeptOutside;
    ghost var m0 := mem[..];
    var found, ok, info := PrepareInfo(mem, f, q, block, rsdp, img);
    if !ok {
      r := Halted;
      return;
    }
    ghost var m1 := mem[..];
    ok := EmitImage(mem, q.start, Magic(found), img);
    if !ok {
      r := Halted;
      return;
    }
    if found && info == 0 {
      r := Halted;
      return;
    }
    if found {
      ClearOfCode(m0, f, q, rsdp, block);
      InfoKept(m1, mem[..], block, ExpectedTags(m0, f, rsdp), CodeEnd(img));
      BothChanges(m0, m1, mem[..], block, block + 0x4000, 0x7C00, CodeEnd(img));
    }
    r := Boot(if found then info else mbiAddr, Magic(found));
  }

  /** How starting the first module ends, by what is in memory at that point. */
  ghost predicate LaunchResult(m0: seq<Byte>, m: seq<Byte>, f: Fields, rsdp: Word, block: Word, mbi: Word, r: Launch)
    requires LaunchOk(m0, f, rsdp, block)
  {
    var q := ModuleAt(m0, f.modsAddr, 0);
    var img, popped := Body(m0, q), Popped(f, q);
    && (IsMbi2(img) ==> Readable(m0, popped, rsdp))
    && (r.Boot? <==>
          && Accepted(img, 0)
          && (IsMbi2(img) ==> q.start != block && block != 0 && InfoFits(m0, popped, rsdp, block, 0x4000)))
    && (!r.Boot? ==> r == Halted)
    && (r.Boot? ==> Launched(m0, m, img, q.start, block, if IsMbi2(img) then ExpectedTags(m0, popped, rsdp) else [],
                             mbi, r))
  }

  /** Everything after the relocation. */
  method LaunchModule(mem: array<Byte>, mbi: Mbi, mbiAddr: Word, block: Word, rsdp: Word) returns (r: Launch)
    requires mem.Length == 0x1_0000_0000
    requires LaunchOk(mem[..], mbi.Get(), rsdp, block)
    modifies mem, mbi
    ensures LaunchOk(old(mem[..]), old(mbi.Get()), rsdp, block)
    ensures mbi.Get() == Popped(old(mbi.Get()), ModuleAt(old(mem[..]), old(mbi.modsAddr), 0))
    ensures LaunchResult(old(mem[..]), mem[..], old(mbi.Get()), rsdp, block, mbiAddr, r)
  {
    hide ImageOk, CodeClear, InfoReady, Readable, IsMbi2, Accepted, InfoFits, ExpectedTags, Launched, ModuleAt, Or;
    ghost var m0, f := mem[..], mbi.Get();
    var q := PopModule(mem, mbi);
    SetCmdlineFlag(mbi.flags);
    mbi.cmdline := q.text;
    mbi.flags := Or(mbi.flags, 4);
    assert mbi.Get() == Popped(f, q);
    r := Prepare(mem, mbi.Get(), q, mbiAddr, block, rsdp, Body(m0, q));
  }

  /** The record of module i when it has been moved: body and string are in its slot. */
  ghost function NewPlace(m: seq<Byte>, mods: nat, count: nat, block: nat, size: nat, i: nat): Module
    requires ModulesOk(m, mods, count) && i < count
  {
    var q := ModuleAt(m, mods, i);
    var at := block + Offset(Needs(m, mods, count), size, i);
    Module(Wrap(at), Wrap(at + (q.end - q.start)), Wrap(at + (q.end - q.start)))
  }

  /** The tags of modules 1 to n, at their new places with their original strings. */
  ghost function MovedTags(m: seq<Byte>, mods: nat, count: nat, block: nat, size: nat, n: nat): seq<Tag>
    requires ModulesOk(m, mods, count) && n < count
  {
    if n == 0 then []
    else
      var q := NewPlace(m, mods, count, block, size, n);
      MovedTags(m, mods, count, block, size, n - 1)
      + [ModuleTag(q.start, q.end, CString(m, ModuleAt(m, mods, n).text))]
  }

  /** The map, when it is asked for, and the root pointer, when there is one, are in memory. */
  ghost predicate InputsOk(m: seq<Byte>, f: Fields, rsdp: Word)
  {
    && (Flag(f.flags, 1) ==> MapOk(m, f.mmapAddr, f.mmapLength))
    && (rsdp != 0 ==> rsdp + 36 <= |m| && rsdp + RsdpLength(m, rsdp) <= |m|)
  }

  /**
   * What the kernel should find, in terms of the memory before everything: the string of the
   * first module as command line, the same memory map, the other modules where they are moved to,
   * the same root pointer.
   */
  ghost function KernelTags(m: seq<Byte>, f: Fields, rsdp: Word, block: nat, size: nat): seq<Tag>
    requires f.modsCount > 0 && ModulesOk(m, f.modsAddr, f.modsCount)
    requires InputsOk(m, f, rsdp)
  {
    [Tag(TAG_CMDLINE, CString(m, ModuleAt(m, f.modsAddr, 0).text))]
    + MapTags(m, f)
    + MovedTags(m, f.modsAddr, f.modsCount, block, size, f.modsCount - 1)
    + RsdpTags(m, rsdp)
  }

  lemma {:induction false} MovedTagAt(m: seq<Byte>, mods: nat, count: nat, block: nat, size: nat, n: nat, i: nat)
    requires ModulesOk(m, mods, count) && 0 < i <= n < count
    ensures |MovedTags(m, mods, count, block, size, n)| == n
    ensures var q := NewPlace(m, mods, count, block, size, i);
            (MovedTags(m, mods, count, block, size, n)[i - 1]
             == ModuleTag(q.start, q.end, CString(m, ModuleAt(m, mods, i).text)))
    decreases n
  {
    hide NewPlace, ModuleTag, ModuleAt, CString, Terminated;
    if i < n {
      MovedTagAt(m, mods, count, block, size, n - 1, i);
    } else if n > 1 {
      MovedTagAt(m, mods, count, block, size, n - 1, n - 1);
    } else {
      assert MovedTags(m, mods, count, block, size, 0) == [];
    }
  }

  /**
   * The tags a kernel should find, one by one: the string of the first module as command line, the
   * memory map if bit 0 is set, the other modules at their new places with their original
   * strings, in order, the root pointer if there is one.
   */
  lemma KernelTagsMeans(m: seq<Byte>, f: Fields, rsdp: Word, block: nat, size: nat)
    requires f.modsCount > 0 && ModulesOk(m, f.modsAddr, f.modsCount) && InputsOk(m, f, rsdp)
    ensures var tags, b := KernelTags(m, f, rsdp, block, size), if f.flags % 2 == 1 then 1 else 0;
            && |tags| == b + f.modsCount + (if rsdp != 0 then 1 else 0)
            && tags[0] == Tag(1, CString(m, ModuleAt(m, f.modsAddr, 0).text))
            && (b == 1 ==> MapOk(m, f.mmapAddr, f.mmapLength)
                           && tags[1] == MemmapTag(Regions(m, f.mmapAddr, f.mmapLength)))
            && (forall i :: 0 < i < f.modsCount ==>
                  var q := NewPlace(m, f.modsAddr, f.modsCount, block, size, i);
                  tags[b + i] == ModuleTag(q.start, q.end, CString(m, ModuleAt(m, f.modsAddr, i).text)))
            && (rsdp != 0 ==> rsdp + 36 <= |m| && rsdp + RsdpLength(m, rsdp) <= |m|
                              && tags[b + f.modsCount] == RsdpTag(m, rsdp))
  {
    hide Flag, Terminated, CString, ModuleAt, ModuleTag, MemmapTag, RsdpTag, MapOk, Regions, RsdpLength, NewPlace;
    FlagMeans(f.flags);
    var moved := MovedTags(m, f.modsAddr, f.modsCount, block, size, f.modsCount - 1);
    assert |moved| == f.modsCount - 1 by {
      if f.modsCount > 1 {
        MovedTagAt(m, f.modsAddr, f.modsCount, block, size, f.modsCount - 1, 1);
      }
    }
    forall i | 0 < i < f.modsCount
      ensures var q := NewPlace(m, f.modsAddr, f.modsCount, block, size, i);
              moved[i - 1] == ModuleTag(q.start, q.end, CString(m, ModuleAt(m, f.modsAddr, i).text))
    {
      MovedTagAt(m, f.modsAddr, f.modsCount, block, size, f.modsCount - 1, i);
    }
  }

  /** The memory between two changes. */
  function Between(m: seq<Byte>, m': seq<Byte>, lo: int, hi: int): (r: seq<Byte>)
    requires |m| == |m'|
    ensures |r| == |m|
  {
    seq(|m|, k requires 0 <= k < |m| => if lo <= k < hi then m'[k] else m[k])
  }

  lemma TwoChanges(m: seq<Byte>, m': seq<Byte>, lo: int, hi: int, lo': int, hi': int)
    requires KeptOutside(m, m', lo, hi, lo', hi')
    ensures ChangedOnly(m, Between(m, m', lo, hi), lo, hi)
    ensures ChangedOnly(Between(m, m', lo, hi), m', lo', hi')
  {
  }

  /** A map clear of both changes is the same map, and stays clear of any range. */
  lemma {:induction false} MapClearKept(m: seq<Byte>, m': seq<Byte>, a: nat, end: nat, lo: int, hi: int, lo': int,
                                        hi': int)
    requires MapReadable(m, a, end) && MapClear(m, a, end, lo, hi) && MapClear(m, a, end, lo', hi')
    requires ChangedOnly(m, m', lo, hi)
    ensures MapReadable(m', a, end) && MapClear(m', a, end, lo', hi')
    decreases end - a
  {
    hide RegionsFrom, NextEntry, RegionAt;
    MapKept(m, m', a, end, lo, hi);
    WalkStep(m, a, end);
    if NextEntry(m, a) < end {
      MapClearKept(m, m', NextEntry(m, a), end, lo, hi, lo', hi');
    }
  }

  lemma {:induction false} MapClearNarrow(m: seq<Byte>, a: nat, end: nat, lo: int, hi: int, hi': int)
    requires MapReadable(m, a, end) && MapClear(m, a, end, lo, hi) && hi' <= hi
    ensures MapClear(m, a, end, lo, hi')
    decreases end - a
  {
    hide NextEntry;
    WalkStep(m, a, end);
    if NextEntry(m, a) < end {
      MapClearNarrow(m, NextEntry(m, a), end, lo, hi, hi');
    }
  }

  lemma KeptWiden(m: seq<Byte>, m': seq<Byte>, lo: int, lo1: int, hi: int, lo': int, hi': int)
    requires KeptOutside(m, m', lo1, hi, lo', hi') && lo <= lo1
    ensures KeptOutside(m, m', lo, hi, lo', hi')
  {
  }

  lemma MovedMap(m: seq<Byte>, m': seq<Byte>, addr: Word, mapEnd: Word, lo: nat, lo1: nat, hi: nat, lo': nat, hi': nat)
    requires KeptOutside(m, m', lo1, hi, lo', hi') && lo <= lo1 <= hi
    requires MapSource(m, addr, mapEnd, lo, hi) && MapSource(m, addr, mapEnd, lo', hi')
    ensures MapSource(m', addr, mapEnd, lo, lo1)
    ensures MapRegions(m', addr, mapEnd) == MapRegions(m, addr, mapEnd)
  {
    hide MapReadable, MapClear, RegionsFrom, Between;
    if addr != 0 {
      var mid := Between(m, m', lo, hi);
      KeptWiden(m, m', lo, lo1, hi, lo', hi');
      TwoChanges(m, m', lo, hi, lo', hi');
      MapKept(m, mid, addr, mapEnd, lo, hi);
      MapClearKept(m, mid, addr, mapEnd, lo, hi, lo', hi');
      MapKept(mid, m', addr, mapEnd, lo', hi');
      MapClearKept(mid, m', addr, mapEnd, lo', hi', lo, hi);
      MapClearNarrow(m', addr, mapEnd, lo, hi, lo1);
    }
  }

  lemma LengthOfTag(m: seq<Byte>, m': seq<Byte>, a: nat)
    requires a + 36 <= |m| && a + RsdpLength(m, a) <= |m| && a + 36 <= |m'| && a + RsdpLength(m', a) <= |m'|
    requires RsdpTag(m, a) == RsdpTag(m', a)
    ensures RsdpLength(m, a) == RsdpLength(m', a)
  {
    hide RsdpLength;
    assert |RsdpTag(m, a).payload| == RsdpLength(m, a);
    assert |RsdpTag(m', a).payload| == RsdpLength(m', a);
  }

  lemma MovedRsdp(m: seq<Byte>, m': seq<Byte>, a: nat, lo: nat, lo1: nat, hi: nat, lo': nat, hi': nat)
    requires KeptOutside(m, m', lo1, hi, lo', hi') && lo <= lo1 <= hi
    requires RsdpSource(m, a, lo, hi) && RsdpSource(m, a, lo', hi')
    ensures RsdpSource(m', a, lo, lo1)
    ensures RsdpTag(m', a) == RsdpTag(m, a)
  {
    hide ReadWord, Between, RsdpTag;
    var mid := Between(m, m', lo, hi);
    KeptWiden(m, m', lo, lo1, hi, lo', hi');
    TwoChanges(m, m', lo, hi, lo', hi');
    RsdpKept(m, mid, a, lo, hi);
    LengthOfTag(m, mid, a);
    RsdpKept(mid, m', a, lo', hi');
    LengthOfTag(mid, m', a);
  }

  /** The memory map and the root pointer lie outside both ranges. */
  ghost predicate InputsClear(m: seq<Byte>, f: Fields, rsdp: Word, lo: nat, hi: nat, lo': nat, hi': nat)
  {
    && (Flag(f.flags, 1) ==> MapSource(m, f.mmapAddr, MapEnd(f.mmapAddr, f.mmapLength), lo, hi)
                             && MapSource(m, f.mmapAddr, MapEnd(f.mmapAddr, f.mmapLength), lo', hi'))
    && (rsdp != 0 ==> RsdpSource(m, rsdp, lo, hi) && RsdpSource(m, rsdp, lo', hi'))
  }

  /** What has to hold before the modules are moved into the block, so that the first one can be started. */
  ghost predicate RelocationOk(m: seq<Byte>, f: Fields, rsdp: Word, block: nat, size: nat)
    requires ModulesOk(m, f.modsAddr, f.modsCount)
  {
    && f.modsCount > 0 && f.modsAddr + 16 < 0x1_0000_0000 && Flag(f.flags, 8)
    && ImageOk(Body(m, ModuleAt(m, f.modsAddr, 0)))
    && CodeClear(Body(m, ModuleAt(m, f.modsAddr, 0)), |m|,
                 if IsMbi2(Body(m, ModuleAt(m, f.modsAddr, 0))) then block else block + 0x4000, block + size)
    && (IsMbi2(Body(m, ModuleAt(m, f.modsAddr, 0))) ==>
          InputsClear(m, f, rsdp, block, block + size, f.modsAddr, f.modsAddr + 16 * f.modsCount))
  }

  lemma InputsReadable(m: seq<Byte>, f: Fields, rsdp: Word, lo: nat, hi: nat, lo': nat, hi': nat)
    requires InputsClear(m, f, rsdp, lo, hi, lo', hi')
    ensures InputsOk(m, f, rsdp)
  {
    hide Flag, MapReadable, MapClear, RsdpLength, RegionsFrom;
  }

  /** Map and root pointer after the move. */
  lemma MovedInputs(m: seq<Byte>, m': seq<Byte>, f: Fields, rsdp: Word, lo: nat, lo1: nat, hi: nat, lo': nat, hi': nat)
    requires KeptOutside(m, m', lo1, hi, lo', hi') && lo <= lo1 <= hi
    requires InputsClear(m, f, rsdp, lo, hi, lo', hi')
    ensures Flag(f.flags, 1) ==> MapSource(m', f.mmapAddr, MapEnd(f.mmapAddr, f.mmapLength), lo, lo1)
    ensures Flag(f.flags, 1) ==> MapOk(m, f.mmapAddr, f.mmapLength) && MapOk(m', f.mmapAddr, f.mmapLength)
    ensures Flag(f.flags, 1) ==> Regions(m', f.mmapAddr, f.mmapLength) == Regions(m, f.mmapAddr, f.mmapLength)
    ensures rsdp != 0 ==> RsdpSource(m', rsdp, lo, lo1) && RsdpSource(m, rsdp, lo, hi)
    ensures rsdp != 0 ==> RsdpTag(m', rsdp) == RsdpTag(m, rsdp)
  {
    hide Flag, MapReadable, MapClear, RegionsFrom, RsdpSource, RsdpTag, KeptOutside, MapEnd;
    if Flag(f.flags, 1) {
      MovedMap(m, m', f.mmapAddr, MapEnd(f.mmapAddr, f.mmapLength), lo, lo1, hi, lo', hi');
    }
    if rsdp != 0 {
      MovedRsdp(m, m', rsdp, lo, lo1, hi, lo', hi');
    }
  }

  /** One module behind the first: its string is a source, and its record says where it went. */
  lemma MovedSource(m0: seq<Byte>, m: seq<Byte>, mods: nat, count: nat, block: nat, size: nat, i: nat)
    requires ModulesOk(m0, mods, count) && i < count && |m| == |m0| <= 0x1_0000_0000
    requires InSlot(m0, m, mods, count, block, size, i) && Arrived(m0, m, mods, i, block, 0x4000, size)
    requires block + size <= |m| && size < 0x1_0000_0000
    ensures ModuleAt(m, mods, i) == NewPlace(m0, mods, count, block, size, i)
    ensures Source(m, ModuleAt(m, mods, i).text, block, block + 0x4000)
    ensures CString(m, ModuleAt(m, mods, i).text) == CString(m0, ModuleAt(m0, mods, i).text)
  {
    hide ModuleAt, Terminated, StrLen, CString, Offset, CopiedTo;
  }

  /** Every module is in its slot, intact. */
  ghost predicate AllMoved(m0: seq<Byte>, m: seq<Byte>, mods: nat, count: nat, block: nat, size: nat)
  {
    && |m| == |m0| <= 0x1_0000_0000 && ModulesOk(m0, mods, count)
    && forall i :: 0 <= i < count ==>
         InSlot(m0, m, mods, count, block, size, i) && Arrived(m0, m, mods, i, block, 0x4000, size)
  }

  lemma SourceEnds(m: seq<Byte>, text: nat, lo: nat, hi: nat)
    requires Source(m, text, lo, hi)
    ensures Terminated(m, text)
  {
  }

  lemma NextRecord(m: seq<Byte>, mods: nat, i: nat)
    requires mods + 16 * i + 32 <= |m|
    ensures ModuleAt(m, mods + 16, i) == ModuleAt(m, mods, i + 1)
  {
    hide ReadWord;
  }

  lemma {:induction false} MovedModuleTags(m0: seq<Byte>, m: seq<Byte>, mods: nat, count: nat, block: nat, size: nat,
                                           n: nat)
    requires AllMoved(m0, m, mods, count, block, size) && n < count
    requires block + size <= |m| && size < 0x1_0000_0000
    requires Disjunct(mods, mods + 16 * count, block, block + 0x4000)
    ensures ModuleSources(m, mods + 16, n, block, block + 0x4000) && TextsOk(m, mods + 16, n)
    ensures ModuleTags(m, mods + 16, n) == MovedTags(m0, mods, count, block, size, n)
  {
    hide ModuleAt, Terminated, CString, Offset, InSlot, Arrived, Source, ModuleTag, Wrap, Needs, ModuleOk;
    if n > 0 {
      MovedModuleTags(m0, m, mods, count, block, size, n - 1);
      MovedSource(m0, m, mods, count, block, size, n);
      NextRecord(m, mods, n - 1);
      SourceEnds(m, ModuleAt(m, mods, n).text, block, block + 0x4000);
    }
  }

  /** The first module after the move: its body is the image, right behind the extra space. */
  lemma MovedImage(m0: seq<Byte>, m: seq<Byte>, mods: nat, count: nat, block: nat, size: nat)
    requires ModulesOk(m0, mods, count) && 0 < count && |m| == |m0|
    requires Arrived(m0, m, mods, 0, block, 0x4000, size)
    ensures var q, q' := ModuleAt(m0, mods, 0), ModuleAt(m, mods, 0);
            && block + 0x4000 <= q'.start <= q'.end <= block + size && q'.end <= |m|
            && Body(m, q') == Body(m0, q)
            && Terminated(m, q'.text) && CString(m, q'.text) == CString(m0, q.text)
            && Disjunct(q'.text, q'.text + StrLen(m, q'.text) + 1, block, block + 0x4000)
            && q'.text + StrLen(m, q'.text) + 1 <= block + size
  {
    hide ModuleAt, Terminated, StrLen, CString;
  }

  /** The conversion can read everything from the moved modules, and finds the tags the kernel should find. */
  lemma MovedSources(m0: seq<Byte>, m: seq<Byte>, f: Fields, rsdp: Word, block: nat, size: nat, q: Module)
    requires block + size <= |m| && 0x4000 <= size < 0x1_0000_0000
    requires f.modsCount > 0 && f.modsAddr + 16 < 0x1_0000_0000 && Flag(f.flags, 8)
    requires AllMoved(m0, m, f.modsAddr, f.modsCount, block, size)
    requires Disjunct(f.modsAddr, f.modsAddr + 16 * f.modsCount, block, block + size)
    requires KeptOutside(m0, m, block + 0x4000, block + size, f.modsAddr, f.modsAddr + 16 * f.modsCount)
    requires InputsClear(m0, f, rsdp, block, block + size, f.modsAddr, f.modsAddr + 16 * f.modsCount)
    requires q == ModuleAt(m, f.modsAddr, 0)
    ensures Sources(m, Popped(f, q), rsdp, block, block + 0x4000)
    ensures Readable(m, Popped(f, q), rsdp)
    ensures InputsOk(m0, f, rsdp)
    ensures ExpectedTags(m, Popped(f, q), rsdp) == KernelTags(m0, f, rsdp, block, size)
  {
    hide ModuleAt, Terminated, StrLen, CString, InSlot, Arrived, InputsClear, KeptOutside, MapSource, RsdpSource, MapOk;
    hide Regions, MapEnd, RsdpTag, MemmapTag, ModuleSources, TextsOk;
    hide And, Or, Source, RsdpLength, ModuleTags, MovedTags;
    InputsReadable(m0, f, rsdp, block, block + size, f.modsAddr, f.modsAddr + 16 * f.modsCount);
    MovedInputs(m0, m, f, rsdp, block, block + 0x4000, block + size, f.modsAddr, f.modsAddr + 16 * f.modsCount);
    MovedModuleTags(m0, m, f.modsAddr, f.modsCount, block, size, f.modsCount - 1);
    MovedSource(m0, m, f.modsAddr, f.modsCount, block, size, 0);
    SetCmdlineFlag(f.flags);
    SourcesReadable(m, Popped(f, q), rsdp, block, block + 0x4000);
  }

  lemma FirstPlace(m0: seq<Byte>, m: seq<Byte>, mods: nat, count: nat, block: nat, size: nat)
    requires ModulesOk(m0, mods, count) && 0 < count && |m| == |m0|
    requires size == TotalSize(Needs(m0, mods, count), 0x4000)
    requires InSlot(m0, m, mods, count, block, size, 0)
    ensures ModuleAt(m, mods, 0).start == block + 0x4000
    ensures size >= 0x4000
  {
    hide ModuleAt, TotalSize, Needs, CopiedTo, StrLen, Terminated, Offset;
    ExtraInFront(Needs(m0, mods, count), size, 0x4000);
    OffsetOrder(Needs(m0, mods, count), size, 0, 0);
  }

  /** After the move the first module can be launched. */
  lemma MovedReady(m0: seq<Byte>, m: seq<Byte>, f: Fields, rsdp: Word, block: Word, size: nat)
    requires |m| == |m0| == 0x1_0000_0000 && size + 0xFFF < 0x1_0000_0000
    requires ModulesOk(m0, f.modsAddr, f.modsCount)
    requires RelocationOk(m0, f, rsdp, block, size) && Clear(m0, f.modsAddr, f.modsCount, block, size)
    requires size == TotalSize(Needs(m0, f.modsAddr, f.modsCount), 0x4000)
    requires MovedFrom(m0, m, f.modsAddr, f.modsCount, block, size, 0)
    ensures LaunchOk(m, f, rsdp, block)
    ensures var q0, q := ModuleAt(m0, f.modsAddr, 0), ModuleAt(m, f.modsAddr, 0);
            && q.start == block + 0x4000 && Body(m, q) == Body(m0, q0)
            && (IsMbi2(Body(m0, q0)) ==>
                  && Readable(m, Popped(f, q), rsdp)
                  && InputsOk(m0, f, rsdp)
                  && ExpectedTags(m, Popped(f, q), rsdp) == KernelTags(m0, f, rsdp, block, size))
  {
    hide ModuleAt, Terminated, StrLen, CString, InSlot, Arrived, InputsClear, KeptOutside, TotalSize, Needs, Offset;
    hide CodeEnd, ImageOk, Accepted, IsMbi2;
    hide Sources, Readable, ExpectedTags, KernelTags, Popped, Flag, MapOk, RsdpLength;
    RelocatedModules(m0, m, f.modsAddr, f.modsCount, block, size, 0x4000);
    MovedImage(m0, m, f.modsAddr, f.modsCount, block, size);
    FirstPlace(m0, m, f.modsAddr, f.modsCount, block, size);
    if IsMbi2(Body(m0, ModuleAt(m0, f.modsAddr, 0))) {
      MovedSources(m0, m, f, rsdp, block, size, ModuleAt(m, f.modsAddr, 0));
    }
  }

  /** What the loader finds out about the block, with 16 KiB extra space. */
  ghost function StartPlan(m: seq<Byte>, f: Fields, physMax: int): Outcome
    requires ModulesOk(m, f.modsAddr, f.modsCount) && MapOk(m, f.mmapAddr, f.mmapLength)
  {
    Plan(m, f.modsAddr, f.modsCount, Regions(m, f.mmapAddr, f.mmapLength), physMax, 0x4000)
  }

  ghost function BlockSize(m: seq<Byte>, f: Fields): nat
    requires ModulesOk(m, f.modsAddr, f.modsCount)
  {
    TotalSize(Needs(m, f.modsAddr, f.modsCount), 0x4000)
  }

  /** There are modules. */
  predicate HasModules(f: Fields)
  {
    Flag(f.flags, 8) && f.modsCount > 0
  }

  /** Well-formed boot information, and nothing in the way of what the loader decides to do. */
  ghost predicate StartOk(m: seq<Byte>, f: Fields, physMax: int, rsdp: Word)
  {
    && ModulesOk(m, f.modsAddr, f.modsCount) && MapOk(m, f.mmapAddr, f.mmapLength)
    && AllInRange(Regions(m, f.mmapAddr, f.mmapLength))
    && BlockSize(m, f) + 0xFFF < 0x1_0000_0000
    && match StartPlan(m, f, physMax)
       case Stopped => true
       case Relocated(block) =>
         Clear(m, f.modsAddr, f.modsCount, block, BlockSize(m, f)) && RelocationOk(m, f, rsdp, block, BlockSize(m, f))
       case AlreadyThere(block) => LaunchOk(m, f, rsdp, block)
       case NotMoved(block) => LaunchOk(m, f, rsdp, block)
  }

  ghost predicate InPlace(m0: seq<Byte>, m: seq<Byte>, mods: nat, count: nat, block: nat, size: nat, i: nat)
    requires ModulesOk(m0, mods, count) && i < count
  {
    var at := block + Offset(Needs(m0, mods, count), size, i);
    block + 0x4000 <= at && CopiedTo(m0, m, ModuleAt(m0, mods, i), at)
  }

  /** Every module and string of m0 is intact in m, in its slot of the block. */
  ghost predicate AllInPlace(m0: seq<Byte>, m: seq<Byte>, mods: nat, count: nat, block: nat, size: nat)
    requires ModulesOk(m0, mods, count)
  {
    forall i :: 0 <= i < count ==> InPlace(m0, m, mods, count, block, size, i)
  }

  /** What lies at the new place of a module: its original bytes, and its original string behind them. */
  lemma NewPlaceHolds(m0: seq<Byte>, m: seq<Byte>, mods: nat, count: nat, block: nat, size: nat, i: nat)
    requires ModulesOk(m0, mods, count) && i < count && InPlace(m0, m, mods, count, block, size, i)
    requires |m| == |m0| <= 0x1_0000_0000
    ensures var q, p := ModuleAt(m0, mods, i), NewPlace(m0, mods, count, block, size, i);
            && block + 0x4000 <= p.start <= p.end <= |m| && m[p.start..p.end] == m0[q.start..q.end]
            && Terminated(m, p.text) && CString(m, p.text) == CString(m0, q.text)
  {
    hide ModuleAt, Needs, StrLen, Terminated, Offset, CString;
    var q, p := ModuleAt(m0, mods, i), NewPlace(m0, mods, count, block, size, i);
    var at := block + Offset(Needs(m0, mods, count), size, i);
    WrapBelow(at);
    WrapBelow(at + (q.end - q.start));
    StringAt(m0, q.text, m, p.text);
  }

  /** Every record in m points to the new place of its module. */
  ghost predicate RecordsInPlace(m0: seq<Byte>, m: seq<Byte>, mods: nat, count: nat, block: nat, size: nat)
    requires ModulesOk(m0, mods, count)
  {
    |m| == |m0| && forall i :: 0 <= i < count ==> ModuleAt(m, mods, i) == NewPlace(m0, mods, count, block, size, i)
  }

  /**
   * How the start ends when the modules have been moved, in terms of the memory m0 before: it
   * boots exactly when the image is accepted and the information fits; then the image is ready
   * to run behind the extra space, the information in the extra space holds the tags the kernel
   * should find, and every module and string is intact at its new place.
   */
  ghost predicate RelocatedStart(m0: seq<Byte>, m: seq<Byte>, f: Fields, rsdp: Word, block: Word, mbi: Word, r: Launch)
    requires ModulesOk(m0, f.modsAddr, f.modsCount) && RelocationOk(m0, f, rsdp, block, BlockSize(m0, f))
  {
    var img := Body(m0, ModuleAt(m0, f.modsAddr, 0));
    && (IsMbi2(img) ==> InputsOk(m0, f, rsdp))
    && (r.Boot? <==>
          && Accepted(img, 0)
          && (IsMbi2(img) ==>
                && block != 0 && block % 8 == 0
                && Cursor(block, KernelTags(m0, f, rsdp, block, BlockSize(m0, f))) + 16 <= block + 0x4000))
    && (!r.Boot? ==> r == Halted)
    && (r.Boot? ==>
          && block + 0x4000 < 0x1_0000_0000 && ReadyToRun(m, block + 0x4000, img, r.magic)
          && r.magic == Magic(IsMbi2(img)) && r.ebx == (if IsMbi2(img) then block else mbi)
          && (IsMbi2(img) ==>
                && Finished(m, block, KernelTags(m0, f, rsdp, block, BlockSize(m0, f)))
                && 16 + PaddedSize(KernelTags(m0, f, rsdp, block, BlockSize(m0, f))) <= 0x4000)
          && AllInPlace(m0, m, f.modsAddr, f.modsCount, block, BlockSize(m0, f))
          && (Disjunct(f.modsAddr, f.modsAddr + 16 * f.modsCount, 0x7C00, CodeEnd(img)) ==>
                RecordsInPlace(m0, m, f.modsAddr, f.modsCount, block, BlockSize(m0, f))))
  }

  /** Building the information and the trampoline leaves a moved module alone. */
  lemma OneStillInPlace(m0: seq<Byte>, m1: seq<Byte>, m: seq<Byte>, mods: nat, count: nat, block: nat, size: nat,
                        codeEnd: nat, i: nat)
    requires ModulesOk(m0, mods, count) && i < count && |m1| == |m0| && InSlot(m0, m1, mods, count, block, size, i)
    requires Offset(Needs(m0, mods, count), size, 0) == 0x4000
    requires KeptOutside(m1, m, block, block + 0x4000, 0x7C00, codeEnd)
    requires Apart(block + 0x4000, block + size, 0x7C00, codeEnd)
    ensures InPlace(m0, m, mods, count, block, size, i)
  {
    hide ModuleAt, Needs, StrLen, Terminated, Offset, CString;
    var needs := Needs(m0, mods, count);
    var q, at := ModuleAt(m0, mods, i), block + Offset(needs, size, i);
    OffsetOrder(needs, size, 0, i);
    OffsetOrder(needs, size, i, count);
    OffsetStep(needs, size, i);
    OffsetOrder(needs, size, i + 1, count);
    SameSlice(m1, m, at, at + (q.end - q.start));
    SameSlice(m1, m, at + (q.end - q.start), at + Need(m0, q));
  }

  lemma StillInPlace(m0: seq<Byte>, m1: seq<Byte>, m: seq<Byte>, mods: nat, count: nat, block: nat, size: nat,
                     codeEnd: nat)
    requires ModulesOk(m0, mods, count) && MovedFrom(m0, m1, mods, count, block, size, 0)
    requires size == TotalSize(Needs(m0, mods, count), 0x4000)
    requires KeptOutside(m1, m, block, block + 0x4000, 0x7C00, codeEnd)
    requires Apart(block + 0x4000, block + size, 0x7C00, codeEnd)
    ensures AllInPlace(m0, m, mods, count, block, size)
  {
    hide ModuleAt, TotalSize, Needs, Offset, InSlot, InPlace, KeptOutside, ModuleOk;
    ExtraInFront(Needs(m0, mods, count), size, 0x4000);
    forall i | 0 <= i < count
      ensures InPlace(m0, m, mods, count, block, size, i)
    {
      OneStillInPlace(m0, m1, m, mods, count, block, size, codeEnd, i);
    }
  }

  /** Records outside the free space and the code keep pointing to the moved modules. */
  lemma RecordsStay(m0: seq<Byte>, m1: seq<Byte>, m: seq<Byte>, mods: nat, count: nat, block: nat, size: nat,
                    codeEnd: nat)
    requires ModulesOk(m0, mods, count) && MovedFrom(m0, m1, mods, count, block, size, 0) && |m0| <= 0x1_0000_0000
    requires KeptOutside(m1, m, block, block + 0x4000, 0x7C00, codeEnd)
    requires Disjunct(mods, mods + 16 * count, block, block + 0x4000)
    requires Disjunct(mods, mods + 16 * count, 0x7C00, codeEnd) && 0x7C00 < codeEnd
    ensures RecordsInPlace(m0, m, mods, count, block, size)
  {
    hide ModuleAt, ModuleOk, Needs, StrLen, Terminated, Offset, CString, CopiedTo;
    forall i | 0 <= i < count
      ensures ModuleAt(m, mods, i) == NewPlace(m0, mods, count, block, size, i)
    {
      assert InSlot(m0, m1, mods, count, block, size, i);
      RecordKept(m1, m, mods, i);
    }
  }

  /** The record of the first module when it has been moved. */
  ghost function FirstMoved(m: seq<Byte>, f: Fields, block: nat): Module
    requires ModulesOk(m, f.modsAddr, f.modsCount) && f.modsCount > 0
  {
    NewPlace(m, f.modsAddr, f.modsCount, block, BlockSize(m, f), 0)
  }

  lemma FirstRecordMoved(m0: seq<Byte>, m: seq<Byte>, f: Fields, block: nat)
    requires ModulesOk(m0, f.modsAddr, f.modsCount) && f.modsCount > 0 && |m0| <= 0x1_0000_0000
    requires MovedFrom(m0, m, f.modsAddr, f.modsCount, block, BlockSize(m0, f), 0)
    ensures f.modsAddr + 16 <= |m| && ModuleAt(m, f.modsAddr, 0) == FirstMoved(m0, f, block)
  {
    hide ModuleAt, Needs, StrLen, Terminated, Offset, CString, CopiedTo, TotalSize;
    assert InSlot(m0, m, f.modsAddr, f.modsCount, block, BlockSize(m0, f), 0);
  }

  lemma BlockHoldsExtra(m: seq<Byte>, f: Fields)
    requires ModulesOk(m, f.modsAddr, f.modsCount)
    ensures BlockSize(m, f) >= 0x4000
  {
    hide TotalSize, Needs, ModulesOk, Offset;
    var needs := Needs(m, f.modsAddr, f.modsCount);
    ExtraInFront(needs, BlockSize(m, f), 0x4000);
    OffsetOrder(needs, BlockSize(m, f), 0, 0);
  }

  lemma CodeNotEmpty(img: seq<Byte>)
    requires ImageOk(img) && Accepted(img, 0)
    ensures 0x7C00 < CodeEnd(img)
  {
    hide Accepted, ElfHeaders, Segments;
  }

  lemma ClearRecords(m: seq<Byte>, mods: nat, count: nat, block: nat, size: nat)
    requires ModulesOk(m, mods, count) && Clear(m, mods, count, block, size) && size >= 0x4000
    ensures Disjunct(mods, mods + 16 * count, block, block + 0x4000)
  {
    hide ModuleAt, Terminated, StrLen;
  }

  /** From the launch of the moved modules to the memory before the move. */
  lemma RelocatedLaunch(m0: seq<Byte>, m1: seq<Byte>, m: seq<Byte>, f: Fields, rsdp: Word, block: Word, mbi: Word,
                        r: Launch)
    requires |m1| == |m0| == 0x1_0000_0000 && ModulesOk(m0, f.modsAddr, f.modsCount)
    requires BlockSize(m0, f) + 0xFFF < 0x1_0000_0000
    requires Clear(m0, f.modsAddr, f.modsCount, block, BlockSize(m0, f))
             && RelocationOk(m0, f, rsdp, block, BlockSize(m0, f))
    requires MovedFrom(m0, m1, f.modsAddr, f.modsCount, block, BlockSize(m0, f), 0)
    requires LaunchOk(m1, f, rsdp, block) && LaunchResult(m1, m, f, rsdp, block, mbi, r)
    ensures RelocatedStart(m0, m, f, rsdp, block, mbi, r)
  {
    hide ModuleAt, TotalSize, Needs, StrLen, Terminated, MovedFrom, Clear, InputsClear, InputsOk, Readable, KernelTags;
    hide ExpectedTags;
    hide Popped, Accepted, ImageOk, IsMbi2, Cursor, Finished, PaddedSize, ReadyToRun, CodeEnd, AllInPlace, Sources;
    hide Flag, Body, ModulesOk;
    MovedReady(m0, m1, f, rsdp, block, BlockSize(m0, f));
    if r.Boot? {
      var codeEnd := CodeEnd(Body(m1, ModuleAt(m1, f.modsAddr, 0)));
      StillInPlace(m0, m1, m, f.modsAddr, f.modsCount, block, BlockSize(m0, f), codeEnd);
      BlockHoldsExtra(m0, f);
      ClearRecords(m0, f.modsAddr, f.modsCount, block, BlockSize(m0, f));
      CodeNotEmpty(Body(m1, ModuleAt(m1, f.modsAddr, 0)));
      if Disjunct(f.modsAddr, f.modsAddr + 16 * f.modsCount, 0x7C00, codeEnd) {
        RecordsStay(m0, m1, m, f.modsAddr, f.modsCount, block, BlockSize(m0, f), codeEnd);
      }
    }
  }

  /**
   * With a limit of at most 4 GiB the planned block is a place in some region of the map, the
   * greatest one if the regions are disjoint, and ends inside memory.
   */
  lemma PlannedBlock(m: seq<Byte>, f: Fields, physMax: int)
    requires ModulesOk(m, f.modsAddr, f.modsCount) && MapOk(m, f.mmapAddr, f.mmapLength)
    requires physMax <= 0x1_0000_0000 && StartPlan(m, f, physMax).Relocated?
    ensures var rs, size := Regions(m, f.mmapAddr, f.mmapLength), BlockSize(m, f);
            var block := StartPlan(m, f, physMax).block;
            && Select(rs, size, physMax) == Some(block) && block + size <= 0x1_0000_0000
            && (exists i :: 0 <= i < |rs| && IsPlace(rs[i], size, physMax, block))
            && (Disjoint(rs) ==> forall i, x :: 0 <= i < |rs| && IsPlace(rs[i], size, physMax, x) ==> x <= block)
  {
    hide TotalSize, Needs, ModuleAt, ModulesOk, MapOk, Regions, Select, Chosen, FirstAbove, IsPlace, Disjoint;
    hide TopsReachable;
    var rs := Regions(m, f.mmapAddr, f.mmapLength);
    BlockHoldsExtra(m, f);
    ChosenIsSelect(rs, BlockSize(m, f), physMax);
    ChosenAddress(rs, BlockSize(m, f), physMax);
    SelectIsGreatest(rs, BlockSize(m, f), physMax);
  }

  /**
   * Relocate the modules, take the first one off the list as kernel, build its information when
   * it is a Multiboot 2 kernel, and generate the trampoline. The result is the jump to it.
   */
  method StartModule(mem: array<Byte>, mbi: Mbi, mbiAddr: Word, physMax: Quad, rsdp: Word) returns (r: Launch)
    requires mem.Length == 0x1_0000_0000
    requires HasModules(mbi.Get()) ==> StartOk(mem[..], mbi.Get(), physMax, rsdp)
    modifies mem, mbi
    ensures !HasModules(old(mbi.Get())) ==> r == NoModule && mem[..] == old(mem[..]) && mbi.Get() == old(mbi.Get())
    ensures HasModules(old(mbi.Get())) ==> StartOk(old(mem[..]), old(mbi.Get()), physMax, rsdp)
    ensures HasModules(old(mbi.Get())) ==>
              match StartPlan(old(mem[..]), old(mbi.Get()), physMax)
              case Stopped => r == Halted && mem[..] == old(mem[..]) && mbi.Get() == old(mbi.Get())
              case Relocated(block) =>
                && RelocatedStart(old(mem[..]), mem[..], old(mbi.Get()), rsdp, block, mbiAddr, r)
                && mbi.Get() == Popped(old(mbi.Get()), FirstMoved(old(mem[..]), old(mbi.Get()), block))
              case AlreadyThere(block) =>
                && LaunchResult(old(mem[..]), mem[..], old(mbi.Get()), rsdp, block, mbiAddr, r)
                && mbi.Get() == Popped(old(mbi.Get()), ModuleAt(old(mem[..]), old(mbi.modsAddr), 0))
              case NotMoved(block) =>
                && LaunchResult(old(mem[..]), mem[..], old(mbi.Get()), rsdp, block, mbiAddr, r)
                && mbi.Get() == Popped(old(mbi.Get()), ModuleAt(old(mem[..]), old(mbi.modsAddr), 0))
  {
    hide TotalSize, Needs, ModuleAt, ModulesOk, MapOk, Regions, AllInRange, Plan, Clear, RelocationOk, LaunchOk;
    hide MovedFrom, SlotsSize, Flag, LaunchResult, RelocatedStart;
    ghost var m0, f := mem[..], mbi.Get();
    if !Flag(mbi.flags, 8) || mbi.modsCount == 0 {
      r := NoModule;
      return;
    }
    PassesAgree(Needs(m0, f.modsAddr, f.modsCount), 0x4000);
    var outcome := RelocateModules(mem, mbi, physMax, 0x4000);
    ghost var m1 := mem[..];
    match outcome {
      case Stopped =>
        r := Halted;
      case Relocated(block) =>
        MovedReady(m0, m1, f, rsdp, block, BlockSize(m0, f));
        FirstRecordMoved(m0, m1, f, block);
        r := LaunchModule(mem, mbi, mbiAddr, block, rsdp);
        RelocatedLaunch(m0, m1, mem[..], f, rsdp, block, mbiAddr, r);
      case AlreadyThere(block) =>
        r := LaunchModule(mem, mbi, mbiAddr, block, rsdp);
      case NotMoved(block) =>
        r := LaunchModule(mem, mbi, mbiAddr, block, rsdp);
    }
  }

  /**
   * The overlap check recognises a module: the first one starts with the block, or it lies below
   * the block and a later one starts with it.
   */
  lemma Recognised(m: seq<Byte>, f: Fields, physMax: int)
    requires ModulesOk(m, f.modsAddr, f.modsCount) && MapOk(m, f.mmapAddr, f.mmapLength)
    requires StartPlan(m, f, physMax).AlreadyThere? && f.modsAddr + 16 * f.modsCount <= |m|
    ensures var block := StartPlan(m, f, physMax).block;
            var i := FirstAbove(m, f.modsAddr, f.modsCount, block);
            && i < f.modsCount && ModuleAt(m, f.modsAddr, i).start == block < ModuleAt(m, f.modsAddr, i).end
            && (i > 0 ==> ModuleAt(m, f.modsAddr, 0).end <= block)
  {
    hide TotalSize, Needs, ModuleAt, MapOk, Regions, Chosen, FirstAbove;
  }

  /** How a start ends when module i is recognised at the block. */
  ghost predicate RecognisedStart(m0: seq<Byte>, m: seq<Byte>, f: Fields, rsdp: Word, block: Word, i: nat, r: Launch)
    requires LaunchOk(m0, f, rsdp, block)
  {
    var q := ModuleAt(m0, f.modsAddr, 0);
    var img := Body(m0, q);
    && (!r.Boot? ==> r == Halted)
    && (i == 0 ==> (r.Boot? <==> Accepted(img, 0) && !IsMbi2(img)))
    && (i > 0 ==>
          && q.end <= block
          && (IsMbi2(img) ==> Readable(m0, Popped(f, q), rsdp))
          && (r.Boot? <==>
                && Accepted(img, 0)
                && (IsMbi2(img) ==> block != 0 && InfoFits(m0, Popped(f, q), rsdp, block, 0x4000)))
          && (r.Boot? && IsMbi2(img) ==> Finished(m, block, ExpectedTags(m0, Popped(f, q), rsdp))))
  }

  /**
   * The start when the modules are already there. With the first module at the block, it boots
   * if and only if the image is accepted and not a Multiboot 2 kernel, whose information would
   * overwrite it. With a later module at the block, the first one lies below, and a Multiboot 2
   * kernel that boots has its information where that later module starts.
   */
  lemma AlreadyThereBoots(m0: seq<Byte>, m: seq<Byte>, f: Fields, physMax: int, rsdp: Word, block: Word, mbi: Word,
                          r: Launch)
    requires ModulesOk(m0, f.modsAddr, f.modsCount) && MapOk(m0, f.mmapAddr, f.mmapLength)
    requires StartPlan(m0, f, physMax) == AlreadyThere(block)
    requires LaunchOk(m0, f, rsdp, block) && LaunchResult(m0, m, f, rsdp, block, mbi, r)
    ensures var i := FirstAbove(m0, f.modsAddr, f.modsCount, block);
            && i < f.modsCount && ModuleAt(m0, f.modsAddr, i).start == block < ModuleAt(m0, f.modsAddr, i).end
            && RecognisedStart(m0, m, f, rsdp, block, i, r)
  {
    hide StartPlan, ModulesOk, MapOk, ModuleAt, FirstAbove, Popped, Readable, ExpectedTags, InfoFits, Finished;
    hide Accepted, HeadersInside, IsMbi2, ReadyToRun, CodeEnd, PaddedSize, InfoReady, CodeClear;
    Recognised(m0, f, physMax);
  }

  lemma PagesAreAligned(x: nat)
    requires x % 0x1000 == 0
    ensures x % 8 == 0
  {
    ModUnique(x, 8, 0x200 * (x / 0x1000), 0);
  }

  /** Below a page-aligned limit the planned block is aligned, as the builder demands. */
  lemma PlannedBlockAligned(m: seq<Byte>, f: Fields, physMax: int)
    requires ModulesOk(m, f.modsAddr, f.modsCount) && MapOk(m, f.mmapAddr, f.mmapLength)
    requires physMax % 0x1000 == 0
    requires StartPlan(m, f, physMax).Relocated?
    ensures StartPlan(m, f, physMax).block % 0x1000 == 0 && StartPlan(m, f, physMax).block % 8 == 0
  {
    hide TotalSize, Needs, ModuleAt, ModulesOk, MapOk, Regions, Chosen, FirstAbove, Offset;
    ExtraInFront(Needs(m, f.modsAddr, f.modsCount), BlockSize(m, f), 0x4000);
    BlockAligned(Regions(m, f.mmapAddr, f.mmapLength), BlockSize(m, f), physMax);
    PagesAreAligned(StartPlan(m, f, physMax).block);
  }
}

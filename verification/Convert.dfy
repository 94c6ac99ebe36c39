/**
 * From Multiboot 1 to Multiboot 2: the conversion in standalone/elf.c.
 */
module Convert {
  import opened Bits
  import opened Memory
  import opened MemoryMap
  import opened Relocate
  import opened Mbi2

  predicate Flag(flags: Word, mask: Word)
  {
    And(flags, mask) != 0
  }

  /** The records of the modules are in memory, and their strings end. */
  ghost predicate TextsOk(m: seq<Byte>, mods: nat, count: nat)
  {
    && mods + 16 * count <= |m|
    && forall i :: 0 <= i < count ==> Terminated(m, ModuleAt(m, mods, i).text)
  }

  /** The tags of the first count modules, in order. */
  ghost function ModuleTags(m: seq<Byte>, mods: nat, count: nat): (r: seq<Tag>)
    requires TextsOk(m, mods, count)
    ensures |r| == count
  {
    if count == 0 then []
    else
      var q := ModuleAt(m, mods, count - 1);
      ModuleTags(m, mods, count - 1) + [ModuleTag(q.start, q.end, CString(m, q.text))]
  }

  ghost predicate Readable(m: seq<Byte>, f: Fields, rsdp: Word)
  {
    && (Flag(f.flags, 4) ==> Terminated(m, f.cmdline))
    && (Flag(f.flags, 1) ==> MapOk(m, f.mmapAddr, f.mmapLength))
    && (Flag(f.flags, 8) ==> TextsOk(m, f.modsAddr, f.modsCount))
    && (rsdp != 0 ==> rsdp + 36 <= |m| && rsdp + RsdpLength(m, rsdp) <= |m|)
  }

  ghost function CmdlineTags(m: seq<Byte>, f: Fields): seq<Tag>
    requires Flag(f.flags, 4) ==> Terminated(m, f.cmdline)
  {
    if Flag(f.flags, 4) then [Tag(TAG_CMDLINE, CString(m, f.cmdline))] else []
  }

  ghost function MapTags(m: seq<Byte>, f: Fields): seq<Tag>
    requires Flag(f.flags, 1) ==> MapOk(m, f.mmapAddr, f.mmapLength)
  {
    if Flag(f.flags, 1) then [MemmapTag(Regions(m, f.mmapAddr, f.mmapLength))] else []
  }

  ghost function AllModuleTags(m: seq<Byte>, f: Fields): seq<Tag>
    requires Flag(f.flags, 8) ==> TextsOk(m, f.modsAddr, f.modsCount)
  {
    if Flag(f.flags, 8) then ModuleTags(m, f.modsAddr, f.modsCount) else []
  }

  ghost function RsdpTags(m: seq<Byte>, rsdp: Word): seq<Tag>
    requires rsdp != 0 ==> rsdp + 36 <= |m| && rsdp + RsdpLength(m, rsdp) <= |m|
  {
    if rsdp != 0 then [RsdpTag(m, rsdp)] else []
  }

  /** What a Multiboot 2 reader should find: command line, memory map, modules, root pointer. */
  ghost function ExpectedTags(m: seq<Byte>, f: Fields, rsdp: Word): seq<Tag>
    requires Readable(m, f, rsdp)
  {
    CmdlineTags(m, f) + MapTags(m, f) + AllModuleTags(m, f) + RsdpTags(m, rsdp)
  }

  ghost predicate ModuleSources(m: seq<Byte>, mods: nat, count: nat, lo: nat, hi: nat)
  {
    && mods + 16 * count <= |m|
    && Disjunct(mods, mods + 16 * count, lo, hi)
    && forall i :: 0 <= i < count ==> Source(m, ModuleAt(m, mods, i).text, lo, hi)
  }

  /** Everything the conversion reads is readable and lies outside lo to hi. */
  ghost predicate Sources(m: seq<Byte>, f: Fields, rsdp: Word, lo: nat, hi: nat)
  {
    && (Flag(f.flags, 4) ==> Source(m, f.cmdline, lo, hi))
    && (Flag(f.flags, 1) ==> MapSource(m, f.mmapAddr, MapEnd(f.mmapAddr, f.mmapLength), lo, hi))
    && (Flag(f.flags, 8) ==> ModuleSources(m, f.modsAddr, f.modsCount, lo, hi))
    && (rsdp != 0 ==> RsdpSource(m, rsdp, lo, hi))
  }

  lemma SourcesReadable(m: seq<Byte>, f: Fields, rsdp: Word, lo: nat, hi: nat)
    requires Sources(m, f, rsdp, lo, hi)
    ensures Readable(m, f, rsdp)
  {
    hide Terminated, StrLen, ModuleAt, MapReadable, MapClear, RegionsFrom, ReadWord, And;
  }

  lemma OneTagKept(m: seq<Byte>, m': seq<Byte>, mods: nat, count: nat, i: nat, lo: nat, hi: nat)
    requires ModuleSources(m, mods, count, lo, hi) && ChangedOnly(m, m', lo, hi) && i < count
    ensures mods + 16 * i + 16 <= |m'| && ModuleAt(m', mods, i) == ModuleAt(m, mods, i)
    ensures Source(m', ModuleAt(m, mods, i).text, lo, hi)
    ensures Terminated(m, ModuleAt(m, mods, i).text) && Terminated(m', ModuleAt(m, mods, i).text)
    ensures CString(m', ModuleAt(m, mods, i).text) == CString(m, ModuleAt(m, mods, i).text)
  {
    hide ModuleAt, Terminated, StrLen, CString;
    assert Source(m, ModuleAt(m, mods, i).text, lo, hi);
    RecordKept(m, m', mods, i);
    SourceKept(m, m', ModuleAt(m, mods, i).text, lo, hi);
  }

  lemma {:induction false} ModuleTagsKept(m: seq<Byte>, m': seq<Byte>, mods: nat, count: nat, lo: nat, hi: nat)
    requires ModuleSources(m, mods, count, lo, hi) && ChangedOnly(m, m', lo, hi)
    ensures ModuleSources(m', mods, count, lo, hi)
    ensures TextsOk(m, mods, count) && TextsOk(m', mods, count)
    ensures ModuleTags(m', mods, count) == ModuleTags(m, mods, count)
  {
    hide ModuleAt, Terminated, CString, Source, ModuleTag;
    if count > 0 {
      ModuleTagsKept(m, m', mods, count - 1, lo, hi);
      OneTagKept(m, m', mods, count, count - 1, lo, hi);
    }
  }

  lemma MapSourceKept(m: seq<Byte>, m': seq<Byte>, addr: Word, mapEnd: Word, lo: nat, hi: nat)
    requires MapSource(m, addr, mapEnd, lo, hi) && ChangedOnly(m, m', lo, hi)
    ensures MapSource(m', addr, mapEnd, lo, hi) && MapRegions(m', addr, mapEnd) == MapRegions(m, addr, mapEnd)
  {
    hide MapReadable, MapClear, RegionsFrom;
    if addr != 0 {
      MapKept(m, m', addr, mapEnd, lo, hi);
    }
  }

  lemma RsdpKept(m: seq<Byte>, m': seq<Byte>, a: nat, lo: nat, hi: nat)
    requires RsdpSource(m, a, lo, hi) && ChangedOnly(m, m', lo, hi)
    ensures RsdpSource(m', a, lo, hi) && RsdpTag(m', a) == RsdpTag(m, a)
  {
    hide ReadWord;
    WordKept(m, m', a + 20);
    SliceKept(m, m', a, a + RsdpLength(m, a), lo, hi, lo);
  }

  /** What the conversion reads stays while the buffer is being written. */
  lemma SourcesKept(m: seq<Byte>, m': seq<Byte>, f: Fields, rsdp: Word, lo: nat, hi: nat)
    requires Sources(m, f, rsdp, lo, hi) && ChangedOnly(m, m', lo, hi)
    ensures Sources(m', f, rsdp, lo, hi)
    ensures Readable(m, f, rsdp) && Readable(m', f, rsdp)
    ensures CmdlineTags(m', f) == CmdlineTags(m, f) && MapTags(m', f) == MapTags(m, f)
    ensures AllModuleTags(m', f) == AllModuleTags(m, f) && RsdpTags(m', rsdp) == RsdpTags(m, rsdp)
  {
    hide ModuleSources, MapSource, RsdpSource, Source, Flag, ModuleTags, RsdpTag, ChangedOnly, MemmapTag;
    SourcesReadable(m, f, rsdp, lo, hi);
    if Flag(f.flags, 4) {
      SourceKept(m, m', f.cmdline, lo, hi);
    }
    if Flag(f.flags, 1) {
      MapSourceKept(m, m', f.mmapAddr, MapEnd(f.mmapAddr, f.mmapLength), lo, hi);
    }
    if Flag(f.flags, 8) {
      ModuleTagsKept(m, m', f.modsAddr, f.modsCount, lo, hi);
    }
    if rsdp != 0 {
      RsdpKept(m, m', rsdp, lo, hi);
    }
    SourcesReadable(m', f, rsdp, lo, hi);
  }

  lemma {:induction false} ModuleTagAt(m: seq<Byte>, mods: nat, count: nat, i: nat)
    requires TextsOk(m, mods, count) && i < count
    ensures TextsOk(m, mods, i) && TextsOk(m, mods, i + 1)
    ensures ModuleTags(m, mods, count)[..i] == ModuleTags(m, mods, i)
    ensures ModuleTags(m, mods, count)[..i + 1] == ModuleTags(m, mods, i + 1)
    ensures var q := ModuleAt(m, mods, i);
            ModuleTags(m, mods, count)[i] == ModuleTag(q.start, q.end, CString(m, q.text))
  {
    hide ModuleAt, Terminated, CString, ModuleTag;
    if i + 1 < count {
      ModuleTagAt(m, mods, count - 1, i);
    }
  }

  lemma WordIsQuad(w: Word)
    ensures Wrap(w) == w
  {
  }

  lemma TagSize(m: seq<Byte>, q: Module)
    requires Terminated(m, q.text)
    ensures |ModuleTag(q.start, q.end, CString(m, q.text)).payload| == 8 + StrLen(m, q.text) + 1
  {
  }

  /** Add all modules of the list. */
  method AddModules(mem: array<Byte>, b: Builder, mods: nat, count: nat, ghost more: seq<Tag>) returns (ok: bool)
    requires b.Valid(mem[..])
    requires ModuleSources(mem[..], mods, count, b.start, b.end)
    modifies mem, b`cur, b`tags
    ensures TextsOk(old(mem[..]), mods, count)
    ensures ok ==> b.Valid(mem[..]) && b.tags == old(b.tags) + ModuleTags(old(mem[..]), mods, count)
    ensures !ok ==> Cursor(b.start, old(b.tags) + ModuleTags(old(mem[..]), mods, count) + more) + 16 > b.end
    ensures ChangedOnly(old(mem[..]), mem[..], b.start, b.end)
  {
    hide b.Valid, ModuleAt, Terminated, CString, ModuleTag, Source, Cursor, ChangedOnly, Room, ReadWord;
    ghost var m0 := mem[..];
    ChangedNothing(m0, b.start, b.end);
    ModuleTagsKept(m0, m0, mods, count, b.start, b.end);
    ghost var all := ModuleTags(m0, mods, count);
    ok := true;
    var i := 0;
    while i < count
      invariant 0 <= i <= count && ok
      invariant b.Valid(mem[..]) && b.tags == old(b.tags) + all[..i]
      invariant ChangedOnly(m0, mem[..], b.start, b.end)
    {
      ModuleTagsKept(m0, mem[..], mods, count, b.start, b.end);
      ModuleTagAt(m0, mods, count, i);
      ModuleTagAt(mem[..], mods, count, i);
      var q := ModuleAt(mem[..], mods, i);
      ghost var m1, c1, tags, t := mem[..], b.cur, b.tags, all[i];
      b.Opened(mem[..]);
      WordIsQuad(q.start);
      WordIsQuad(q.end);
      ok := b.AddModule(mem, q.start, q.end, q.text);
      ChangedThen(m0, m1, mem[..], b.start, c1, b.end);
      if !ok {
        TagSize(m1, q);
        NoRoom(b.start, tags, t, all[i + 1..] + more, b.end);
        assert tags + [t] + (all[i + 1..] + more) == old(b.tags) + all + more;
        return;
      }
      i := i + 1;
    }
  }

  /** The finished information fits into size bytes. */
  ghost predicate InfoFits(m: seq<Byte>, f: Fields, rsdp: Word, start: nat, size: nat)
    requires Readable(m, f, rsdp)
  {
    start % 8 == 0 && Cursor(start, ExpectedTags(m, f, rsdp)) + 16 <= start + size
  }

  lemma CmdlineSource(m: seq<Byte>, f: Fields, rsdp: Word, lo: nat, hi: nat)
    requires Sources(m, f, rsdp, lo, hi) && Flag(f.flags, 4)
    ensures Source(m, f.cmdline, lo, hi)
  {
    hide ModuleSources, MapSource, RsdpSource, Source, Flag;
  }

  lemma CmdlineSize(m: seq<Byte>, f: Fields)
    requires Flag(f.flags, 4) && Terminated(m, f.cmdline)
    ensures |CmdlineTags(m, f)[0].payload| == StrLen(m, f.cmdline) + 1
  {
    hide Flag, Terminated, StrLen;
  }

  /** The command line, when there is one. */
  method AddCmdline(mem: array<Byte>, b: Builder, f: Fields, ghost rsdp: Word, ghost m0: seq<Byte>) returns (ok: bool)
    requires b.Valid(mem[..]) && b.tags == []
    requires Sources(m0, f, rsdp, b.start, b.end) && ChangedOnly(m0, mem[..], b.start, b.end)
    modifies mem, b`cur, b`tags
    ensures Readable(m0, f, rsdp)
    ensures ok ==> b.Valid(mem[..]) && b.tags == CmdlineTags(m0, f)
    ensures !ok ==> Cursor(b.start, ExpectedTags(m0, f, rsdp)) + 16 > b.end
    ensures ChangedOnly(m0, mem[..], b.start, b.end)
  {
    hide b.Valid, Source, Cursor, ChangedOnly, Room, Sources, MapTags, AllModuleTags, RsdpTags, CString, Flag, MapOk;
    hide TextsOk, Terminated, RsdpLength;
    ghost var m1, c1 := mem[..], b.cur;
    SourcesKept(m0, m1, f, rsdp, b.start, b.end);
    b.Opened(m1);
    ok := true;
    if Flag(f.flags, 4) {
      CmdlineSource(m1, f, rsdp, b.start, b.end);
      ok := b.AddBootCmdline(mem, f.cmdline);
      ChangedThen(m0, m1, mem[..], b.start, c1, b.end);
      if !ok {
        ghost var t := CmdlineTags(m1, f)[0];
        ghost var more := MapTags(m0, f) + AllModuleTags(m0, f) + RsdpTags(m0, rsdp);
        CmdlineSize(m1, f);
        NoRoom(b.start, [], t, more, b.end);
        assert [] + [t] + more == ExpectedTags(m0, f, rsdp);
      }
    }
  }

  lemma MapReady(m: seq<Byte>, f: Fields, rsdp: Word, lo: nat, hi: nat)
    requires Sources(m, f, rsdp, lo, hi) && Flag(f.flags, 1)
    ensures MapSource(m, f.mmapAddr, MapEnd(f.mmapAddr, f.mmapLength), lo, hi)
    ensures MapOk(m, f.mmapAddr, f.mmapLength)
    ensures MapRegions(m, f.mmapAddr, MapEnd(f.mmapAddr, f.mmapLength)) == Regions(m, f.mmapAddr, f.mmapLength)
  {
    hide ModuleSources, RsdpSource, Source, Flag, MapReadable, MapClear, RegionsFrom;
  }

  /** The memory map, when the memory flag says so. */
  method AddMap(mem: array<Byte>, b: Builder, f: Fields, ghost rsdp: Word, ghost m0: seq<Byte>) returns (ok: bool)
    requires Readable(m0, f, rsdp) && b.Valid(mem[..]) && b.tags == CmdlineTags(m0, f)
    requires Sources(m0, f, rsdp, b.start, b.end) && ChangedOnly(m0, mem[..], b.start, b.end)
    modifies mem, b`cur, b`tags
    ensures ok ==> b.Valid(mem[..]) && b.tags == CmdlineTags(m0, f) + MapTags(m0, f)
    ensures !ok ==> Cursor(b.start, ExpectedTags(m0, f, rsdp)) + 16 > b.end
    ensures ChangedOnly(m0, mem[..], b.start, b.end)
  {
    hide b.Valid, MapSource, Cursor, ChangedOnly, Room, Sources, CmdlineTags, AllModuleTags, RsdpTags, Flag, TextsOk;
    hide Terminated, RsdpLength;
    hide MapReadable, MapRegions, Regions, MemmapTag, MapEnd, MapOk;
    ghost var m1, c1 := mem[..], b.cur;
    SourcesKept(m0, m1, f, rsdp, b.start, b.end);
    b.Opened(m1);
    ok := true;
    if Flag(f.flags, 1) {
      MapReady(m1, f, rsdp, b.start, b.end);
      ghost var tags := b.tags;
      ok := b.AddMemmap(mem, f.mmapAddr, MapEnd(f.mmapAddr, f.mmapLength));
      ChangedThen(m0, m1, mem[..], b.start, c1, b.end);
      if !ok {
        ghost var t := MapTags(m1, f)[0];
        ghost var more := AllModuleTags(m0, f) + RsdpTags(m0, rsdp);
        MemmapPayload(Regions(m1, f.mmapAddr, f.mmapLength));
        NoRoom(b.start, tags, t, more, b.end);
        assert CmdlineTags(m0, f) + [t] + more == ExpectedTags(m0, f, rsdp);
      }
    }
  }

  lemma ModulesReady(m: seq<Byte>, f: Fields, rsdp: Word, lo: nat, hi: nat)
    requires Sources(m, f, rsdp, lo, hi) && Flag(f.flags, 8)
    ensures ModuleSources(m, f.modsAddr, f.modsCount, lo, hi)
  {
    hide ModuleSources, RsdpSource, Source, Flag, MapSource;
  }

  /** The modules, when there are any. */
  method AddAllModules(mem: array<Byte>, b: Builder, f: Fields, ghost rsdp: Word, ghost m0: seq<Byte>)
    returns (ok: bool)
    requires Readable(m0, f, rsdp) && b.Valid(mem[..]) && b.tags == CmdlineTags(m0, f) + MapTags(m0, f)
    requires Sources(m0, f, rsdp, b.start, b.end) && ChangedOnly(m0, mem[..], b.start, b.end)
    modifies mem, b`cur, b`tags
    ensures ok ==> b.Valid(mem[..]) && b.tags == CmdlineTags(m0, f) + MapTags(m0, f) + AllModuleTags(m0, f)
    ensures !ok ==> Cursor(b.start, ExpectedTags(m0, f, rsdp)) + 16 > b.end
    ensures ChangedOnly(m0, mem[..], b.start, b.end)
  {
    hide b.Valid, ModuleSources, Cursor, Room, Sources, CmdlineTags, MapTags, RsdpTags, Flag, ModuleTags, TextsOk;
    hide MapOk, Terminated, RsdpLength;
    ghost var m1 := mem[..];
    SourcesKept(m0, m1, f, rsdp, b.start, b.end);
    ok := true;
    if Flag(f.flags, 8) {
      ModulesReady(m1, f, rsdp, b.start, b.end);
      ok := AddModules(mem, b, f.modsAddr, f.modsCount, RsdpTags(m0, rsdp));
    } else {
      assert b.tags + [] == b.tags;
    }
  }

  lemma RsdpSize(m: seq<Byte>, a: nat)
    requires a + 36 <= |m| && a + RsdpLength(m, a) <= |m|
    ensures |RsdpTag(m, a).payload| == RsdpLength(m, a)
  {
    hide RsdpLength;
  }

  lemma RsdpReady(m: seq<Byte>, f: Fields, rsdp: Word, lo: nat, hi: nat)
    requires Sources(m, f, rsdp, lo, hi) && rsdp != 0
    ensures RsdpSource(m, rsdp, lo, hi)
    ensures rsdp + 36 <= |m| && rsdp + RsdpLength(m, rsdp) <= |m|
  {
    hide ModuleSources, RsdpLength, Source, Flag, MapSource;
  }

  /** The root pointer, when there is one. */
  method AddRootPointer(mem: array<Byte>, b: Builder, f: Fields, rsdp: Word, ghost m0: seq<Byte>) returns (ok: bool)
    requires Readable(m0, f, rsdp) && b.Valid(mem[..])
             && b.tags == CmdlineTags(m0, f) + MapTags(m0, f) + AllModuleTags(m0, f)
    requires Sources(m0, f, rsdp, b.start, b.end) && ChangedOnly(m0, mem[..], b.start, b.end)
    modifies mem, b`cur, b`tags
    ensures ok ==> b.Valid(mem[..]) && b.tags == ExpectedTags(m0, f, rsdp)
    ensures !ok ==> Cursor(b.start, ExpectedTags(m0, f, rsdp)) + 16 > b.end
    ensures ChangedOnly(m0, mem[..], b.start, b.end)
  {
    hide b.Valid, RsdpSource, Cursor, ChangedOnly, Room, Sources, CmdlineTags, MapTags, AllModuleTags, Flag, RsdpLength;
    hide MapOk, TextsOk, Terminated;
    ghost var m1, c1 := mem[..], b.cur;
    SourcesKept(m0, m1, f, rsdp, b.start, b.end);
    b.Opened(m1);
    ok := true;
    if rsdp != 0 {
      RsdpReady(m1, f, rsdp, b.start, b.end);
      ghost var tags := b.tags;
      ok := b.AddRsdp(mem, rsdp);
      ChangedThen(m0, m1, mem[..], b.start, c1, b.end);
      if !ok {
        RsdpSize(m1, rsdp);
        NoRoom(b.start, tags, RsdpTag(m1, rsdp), [], b.end);
        assert tags + [RsdpTag(m1, rsdp)] + [] == ExpectedTags(m0, f, rsdp);
      }
    } else {
      assert b.tags + [] == b.tags;
    }
  }

  lemma CursorNone(start: nat)
    ensures Cursor(start, []) == start + 8
  {
  }

  lemma InfoNeeds(start: nat, tags: seq<Tag>)
    ensures start % 8 == 0 ==> start + 8 <= Cursor(start, tags)
  {
    hide At, Cursor;
    if start % 8 == 0 {
      CursorGrows(start, [], tags);
      assert [] + tags == tags;
      CursorNone(start);
    }
  }

  /**
   * Build the Multiboot 2 information for the fields f in the size bytes from physAddr. It
   * succeeds exactly when the information fits; a failed assertion is the result false.
   */
  method ConvertToMbi2(mem: array<Byte>, f: Fields, physAddr: Word, size: Word, rsdp: Word)
    returns (ok: bool, info: Word)
    requires physAddr + size < 0x1_0000_0000 && physAddr + size <= mem.Length
    requires Sources(mem[..], f, rsdp, physAddr, physAddr + size)
    modifies mem
    ensures Readable(old(mem[..]), f, rsdp)
    ensures ok == InfoFits(old(mem[..]), f, rsdp, physAddr, size)
    ensures ok ==> info == physAddr && Finished(mem[..], info, ExpectedTags(old(mem[..]), f, rsdp))
    ensures ChangedOnly(old(mem[..]), mem[..], physAddr, physAddr + size)
  {
    hide Cursor, ChangedOnly, Sources, Readable, ExpectedTags, Finished, CmdlineTags, MapTags, AllModuleTags;
    ghost var m0 := mem[..];
    ghost var end := physAddr + size;
    ChangedNothing(m0, physAddr, end);
    SourcesReadable(m0, f, rsdp, physAddr, end);
    InfoNeeds(physAddr, ExpectedTags(m0, f, rsdp));
    ok, info := false, physAddr;
    var b := Build(mem, physAddr, size);
    if b == null {
      return;
    }
    hide b.Valid;
    ok := AddCmdline(mem, b, f, rsdp, m0);
    if !ok {
      return;
    }
    ok := AddMap(mem, b, f, rsdp, m0);
    if !ok {
      return;
    }
    ok := AddAllModules(mem, b, f, rsdp, m0);
    if !ok {
      return;
    }
    ok := AddRootPointer(mem, b, f, rsdp, m0);
    if !ok {
      return;
    }
    b.Opened(mem[..]);
    ghost var m1 := mem[..];
    ok, info := b.Finish(mem);
    ChangedThen(m0, m1, mem[..], physAddr, physAddr, end);
  }
}

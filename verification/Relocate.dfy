/**
 * Moving the boot modules to high memory (standalone/mbi.c).
 */
module Relocate {
  import opened Bits
  import opened Memory
  import opened MemoryMap

  /** A module record: the body from start to end, and the address of its string. */
  datatype Module = Module(start: Word, end: Word, text: Word)

  function ModuleAt(m: seq<Byte>, mods: nat, i: nat): Module
    requires mods + 16 * i + 16 <= |m|
  {
    Module(ReadWord(m, mods + 16 * i), ReadWord(m, mods + 16 * i + 4), ReadWord(m, mods + 16 * i + 8))
  }

  /** Where a module record holds its fields: 16 bytes each, start, end and string in front. */
  lemma RecordLayout(m: seq<Byte>, mods: nat, i: nat, q: Module)
    requires mods + 16 * i + 16 <= |m|
    requires m[mods + 16 * i..mods + 16 * i + 4] == WordBytes(q.start)
    requires m[mods + 16 * i + 4..mods + 16 * i + 8] == WordBytes(q.end)
    requires m[mods + 16 * i + 8..mods + 16 * i + 12] == WordBytes(q.text)
    ensures ModuleAt(m, mods, i) == q
  {
    hide WordBytes, ReadWord;
    ReadBackWord(m, mods + 16 * i, q.start);
    ReadBackWord(m, mods + 16 * i + 4, q.end);
    ReadBackWord(m, mods + 16 * i + 8, q.text);
  }

  ghost predicate ModuleOk(m: seq<Byte>, q: Module)
  {
    q.start <= q.end <= |m| && Terminated(m, q.text)
  }

  /** Body and string of every module are in memory. */
  ghost predicate ModulesOk(m: seq<Byte>, mods: nat, count: nat)
  {
    && mods + 16 * count <= |m|
    && forall i :: 0 <= i < count ==> ModuleOk(m, ModuleAt(m, mods, i))
  }

  /** The bytes a module needs: its body and its string with the NUL. */
  ghost function Need(m: seq<Byte>, q: Module): nat
    requires ModuleOk(m, q)
  {
    q.end - q.start + StrLen(m, q.text) + 1
  }

  ghost function Needs(m: seq<Byte>, mods: nat, count: nat): (r: seq<nat>)
    requires ModulesOk(m, mods, count)
    ensures |r| == count
    ensures forall i :: 0 <= i < count ==> r[i] == Need(m, ModuleAt(m, mods, i))
  {
    seq(count, i requires 0 <= i < count => Need(m, ModuleAt(m, mods, i)))
  }

  /** The sizing pass: round up to a page after every module. */
  function TotalSize(needs: seq<nat>, extra: nat): nat
  {
    if needs == [] then extra else PageUp(TotalSize(needs[..|needs| - 1], extra) + needs[|needs| - 1])
  }

  /** The copying pass: what the page-rounded slots of the modules take together. */
  function SlotsSize(needs: seq<nat>): nat
  {
    if needs == [] then 0 else PageUp(needs[0]) + SlotsSize(needs[1..])
  }

  lemma {:induction false} SlotsSnoc(needs: seq<nat>, x: nat)
    ensures SlotsSize(needs + [x]) == SlotsSize(needs) + PageUp(x)
  {
    if needs == [] {
      assert [x][1..] == [] && [] + [x] == [x];
    } else {
      assert (needs + [x])[1..] == needs[1..] + [x];
      SlotsSnoc(needs[1..], x);
    }
  }

  lemma PageUpAdd(page: nat, x: nat)
    requires page % 0x1000 == 0
    ensures PageUp(page + x) == page + PageUp(x)
  {
  }

  lemma PageUpMono(x: nat, y: nat)
    requires x <= y
    ensures PageUp(x) <= PageUp(y)
  {
  }

  /** The two passes agree up to what the rounding after the first module does. */
  lemma {:induction false} PassesAgree(needs: seq<nat>, extra: nat)
    ensures needs != [] ==> TotalSize(needs, extra) % 0x1000 == 0
    ensures needs != [] ==>
              TotalSize(needs, extra) == SlotsSize(needs) + PageUp(extra + needs[0]) - PageUp(needs[0])
    ensures needs == [] ==> TotalSize(needs, extra) == SlotsSize(needs) + extra
    ensures extra % 0x1000 == 0 ==> TotalSize(needs, extra) == SlotsSize(needs) + extra
    ensures TotalSize(needs, extra) >= SlotsSize(needs)
  {
    hide PageUp;
    if needs != [] {
      var init, x := needs[..|needs| - 1], needs[|needs| - 1];
      assert needs == init + [x];
      PassesAgree(init, extra);
      SlotsSnoc(init, x);
      PageUpFacts(TotalSize(init, extra) + x);
      if init == [] {
        assert needs[0] == x;
      } else {
        PageUpAdd(TotalSize(init, extra), x);
        assert needs[0] == init[0];
      }
      PageUpMono(needs[0], extra + needs[0]);
      if extra % 0x1000 == 0 {
        PageUpAdd(extra, needs[0]);
      }
    }
  }

  lemma SumAligned(x: int, y: int)
    ensures x % 0x1000 == 0 && y % 0x1000 == 0 ==> (x + y) % 0x1000 == 0
  {
  }

  lemma PageDifference(x: int, y: int)
    requires x % 0x1000 == 0 && y % 0x1000 == 0
    ensures (x - y) % 0x1000 == 0
  {
    ModUnique(x - y, 0x1000, x / 0x1000 - y / 0x1000, 0);
  }

  lemma RoundedGap(x: nat, extra: nat)
    ensures PageUp(extra + x) - PageUp(x) == extra <==> extra % 0x1000 == 0
  {
    var hi, lo := PageUp(extra + x), PageUp(x);
    hide PageUp;
    PageUpFacts(extra + x);
    PageUpFacts(x);
    PageDifference(hi, lo);
    if extra % 0x1000 == 0 {
      PageUpAdd(extra, x);
    }
  }

  /**
   * With modules to move, exactly the extra space is left in front of them if and only if the
   * extra space is a whole number of pages.
   */
  lemma ExtraSpaceLeft(needs: seq<nat>, extra: nat)
    requires needs != []
    ensures TotalSize(needs, extra) - SlotsSize(needs) == extra <==> extra % 0x1000 == 0
  {
    PassesAgree(needs, extra);
    hide PageUp;
    RoundedGap(needs[0], extra);
  }

  /** Body and string of the module q of m0 are found at the address at in m. */
  ghost predicate CopiedTo(m0: seq<Byte>, m: seq<Byte>, q: Module, at: nat)
    requires ModuleOk(m0, q)
  {
    var len := q.end - q.start;
    && at + Need(m0, q) <= |m|
    && m[at..at + len] == m0[q.start..q.end]
    && m[at + len..at + Need(m0, q)] == CString(m0, q.text)
  }

  /** Module i can be copied to the slot at: nothing that is still needed lies there. */
  ghost predicate Movable(m: seq<Byte>, mods: nat, i: nat, at: nat, modlen: nat, slen: nat)
    requires mods + 16 * i + 16 <= |m|
  {
    var q := ModuleAt(m, mods, i);
    && ModuleOk(m, q) && modlen == q.end - q.start && slen == StrLen(m, q.text) + 1
    && q.end <= at
    && Disjunct(q.text, q.text + slen, at, at + modlen + slen)
    && Disjunct(mods + 16 * i, mods + 16 * i + 16, at, at + modlen + slen)
    && Disjunct(q.text, q.text + slen, mods + 16 * i, mods + 16 * i + 16)
  }

  /** Only bytes from lo to hi or from lo' to hi' differ. */
  ghost predicate KeptOutside(m0: seq<Byte>, m: seq<Byte>, lo: int, hi: int, lo': int, hi': int)
  {
    && |m0| == |m|
    && forall k :: 0 <= k < |m| && !(lo <= k < hi) && !(lo' <= k < hi') ==> m[k] == m0[k]
  }

  /** Module i has been copied to the slot at, and nothing else changed. */
  ghost predicate Placed(m0: seq<Byte>, m: seq<Byte>, mods: nat, i: nat, at: nat, modlen: nat, slen: nat)
    requires |m0| == |m| && mods + 16 * i + 16 <= |m|
    requires ModuleOk(m0, ModuleAt(m0, mods, i))
    requires at + modlen < 0x1_0000_0000
  {
    && KeptOutside(m0, m, at, at + modlen + slen, mods + 16 * i, mods + 16 * i + 12)
    && ModuleAt(m, mods, i) == Module(at, at + modlen, at + modlen)
    && CopiedTo(m0, m, ModuleAt(m0, mods, i), at)
  }

  lemma PlacedCopy(m0: seq<Byte>, m1: seq<Byte>, m3: seq<Byte>, m4: seq<Byte>, m5: seq<Byte>, q: Module, at: nat,
                   modlen: nat, slen: nat)
    requires |m0| == |m1| == |m3| == |m4| == |m5|
    requires ModuleOk(m0, q) && modlen == q.end - q.start && slen == StrLen(m0, q.text) + 1
    requires at + modlen + slen <= |m0|
    requires m1[at..at + modlen] == m0[q.start..q.end] && Same(m1, m5, at, at + modlen)
    requires Same(m0, m3, q.text, q.text + slen) && m4[at + modlen..at + modlen + slen] == m3[q.text..q.text + slen]
    requires Same(m4, m5, at + modlen, at + modlen + slen)
    ensures CopiedTo(m0, m5, q, at)
  {
    hide StrLen, Terminated;
    SameSlice(m1, m5, at, at + modlen);
    SameSlice(m0, m3, q.text, q.text + slen);
    SameSlice(m4, m5, at + modlen, at + modlen + slen);
  }

  lemma PlacedBy(m0: seq<Byte>, m1: seq<Byte>, m2: seq<Byte>, m3: seq<Byte>, m4: seq<Byte>, m5: seq<Byte>,
                 mods: nat, i: nat, at: nat, modlen: nat, slen: nat)
    requires |m0| == |m1| == |m2| == |m3| == |m4| == |m5| <= 0x1_0000_0000
    requires mods + 16 * i + 16 <= |m0| && at + modlen + slen <= |m0| && at + modlen < 0x1_0000_0000
    requires Movable(m0, mods, i, at, modlen, slen)
    requires var q, r := ModuleAt(m0, mods, i), mods + 16 * i;
             && ChangedOnly(m0, m1, at, at + modlen) && m1[at..at + modlen] == m0[q.start..q.end]
             && ChangedOnly(m1, m2, r, r + 4) && ReadWord(m2, r) == at
             && ChangedOnly(m2, m3, r + 4, r + 8) && ReadWord(m3, r + 4) == at + modlen
             && q.text + slen <= |m3|
             && ChangedOnly(m3, m4, at + modlen, at + modlen + slen)
             && m4[at + modlen..at + modlen + slen] == m3[q.text..q.text + slen]
             && ChangedOnly(m4, m5, r + 8, r + 12) && ReadWord(m5, r + 8) == at + modlen
    ensures Placed(m0, m5, mods, i, at, modlen, slen)
  {
    hide ReadWord, StrLen, Terminated;
    var q, r := ModuleAt(m0, mods, i), mods + 16 * i;
    WordKept(m2, m5, r);
    WordKept(m3, m5, r + 4);
    PlacedCopy(m0, m1, m3, m4, m5, q, at, modlen, slen);
  }

  /** The body copy and the new bounds leave the address of the string as it was. */
  lemma TextKept(m0: seq<Byte>, m1: seq<Byte>, m2: seq<Byte>, m3: seq<Byte>, mods: nat, i: nat, at: nat, modlen: nat,
                 slen: nat)
    requires mods + 16 * i + 16 <= |m0|
    requires Movable(m0, mods, i, at, modlen, slen)
    requires ChangedOnly(m0, m1, at, at + modlen)
    requires ChangedOnly(m1, m2, mods + 16 * i, mods + 16 * i + 4)
    requires ChangedOnly(m2, m3, mods + 16 * i + 4, mods + 16 * i + 8)
    ensures |m3| == |m0| && ReadWord(m3, mods + 16 * i + 8) == ModuleAt(m0, mods, i).text
  {
    hide StrLen, Terminated;
    WordKept(m0, m3, mods + 16 * i + 8);
  }

  lemma MovableFacts(m: seq<Byte>, mods: nat, i: nat, at: nat, modlen: nat, slen: nat)
    requires mods + 16 * i + 16 <= |m| && Movable(m, mods, i, at, modlen, slen)
    ensures var q := ModuleAt(m, mods, i);
            && ReadWord(m, mods + 16 * i) == q.start && ModuleOk(m, q)
            && q.start + modlen == q.end <= |m| && q.end <= at && q.text + slen <= |m|
            && Disjunct(q.text, q.text + slen, at, at + modlen + slen)
  {
    hide ReadWord, StrLen, Terminated;
  }

  /** Copy one module and its string to the slot at, and update its record. */
  method PlaceModule(mem: array<Byte>, mods: nat, i: nat, at: nat, modlen: nat, slen: nat)
    requires mods + 16 * i + 16 <= mem.Length <= 0x1_0000_0000 && at + modlen + slen <= mem.Length
    requires at + modlen < 0x1_0000_0000
    requires Movable(mem[..], mods, i, at, modlen, slen)
    modifies mem
    ensures |old(mem[..])| == mem.Length
    ensures Placed(old(mem[..]), mem[..], mods, i, at, modlen, slen)
  {
    hide ReadWord, StrLen, Terminated, CString, Poke, Placed, CopiedTo, ChangedOnly, Movable, ModuleAt, ModuleOk;
    ghost var m0 := mem[..];
    var r := mods + 16 * i;
    MovableFacts(m0, mods, i, at, modlen, slen);
    var start := ReadWord(mem[..], r);
    MemCpy(mem, at, start, modlen);
    ghost var m1 := mem[..];
    StoreWord(mem, r, at);
    ghost var m2 := mem[..];
    StoreWord(mem, r + 4, at + modlen);
    ghost var m3 := mem[..];
    TextKept(m0, m1, m2, m3, mods, i, at, modlen, slen);
    var text := ReadWord(mem[..], r + 8);
    MemCpy(mem, at + modlen, text, slen);
    ghost var m4 := mem[..];
    StoreWord(mem, r + 8, at + modlen);
    PlacedBy(m0, m1, m2, m3, m4, mem[..], mods, i, at, modlen, slen);
  }

  /** Where the slot of module i starts, counted from the block: the slots fill the block from its end. */
  function Offset(needs: seq<nat>, size: int, i: nat): int
    requires i <= |needs|
  {
    size - SlotsSize(needs[i..])
  }

  lemma OffsetStep(needs: seq<nat>, size: int, i: nat)
    requires i < |needs|
    ensures Offset(needs, size, i) + PageUp(needs[i]) == Offset(needs, size, i + 1)
    ensures PageUp(needs[i]) >= needs[i]
  {
    assert needs[i..][1..] == needs[i + 1..];
    PageUpFacts(needs[i]);
  }

  lemma OffsetEnd(needs: seq<nat>, size: int)
    ensures Offset(needs, size, |needs|) == size
  {
  }

  /**
   * A slot is the least number of whole pages that holds its module and string, and the last one
   * ends with the block.
   */
  lemma SlotSize(needs: seq<nat>, size: int, i: nat)
    requires i < |needs|
    ensures var slot := Offset(needs, size, i + 1) - Offset(needs, size, i);
            slot % 0x1000 == 0 && needs[i] <= slot < needs[i] + 0x1000
    ensures i + 1 == |needs| ==> Offset(needs, size, i + 1) == size
  {
    hide Offset, PageUp;
    OffsetStep(needs, size, i);
    PageUpFacts(needs[i]);
    OffsetEnd(needs, size);
  }

  /** The slots are in order, each page-rounded, up to the end of the block. */
  lemma {:induction false} OffsetOrder(needs: seq<nat>, size: int, i: nat, j: nat)
    requires i <= j <= |needs|
    ensures Offset(needs, size, i) <= Offset(needs, size, j) <= size
    ensures i < j ==> Offset(needs, size, i) + needs[i] <= Offset(needs, size, j)
    decreases |needs| - i
  {
    hide SlotsSize;
    if i == |needs| {
      OffsetEnd(needs, size);
    } else {
      OffsetStep(needs, size, i);
      OffsetOrder(needs, size, i + 1, if i < j then j else i + 1);
    }
  }

  /** Slot addresses are page aligned when the end of the block is. */
  lemma {:induction false} OffsetAligned(needs: seq<nat>, size: int, i: nat)
    requires i <= |needs|
    requires size % 0x1000 == 0
    ensures Offset(needs, size, i) % 0x1000 == 0
    decreases |needs| - i
  {
    if i == |needs| {
      OffsetEnd(needs, size);
    } else {
      OffsetAligned(needs, size, i + 1);
      OffsetStep(needs, size, i);
      PageUpFacts(needs[i]);
    }
  }

  ghost predicate LayoutOf(m: seq<Byte>, mods: nat, count: nat, block: nat, size: nat, q: Module)
    requires ModuleOk(m, q)
  {
    && q.end <= block
    && Disjunct(q.start, q.end, mods, mods + 16 * count)
    && Disjunct(q.text, q.text + StrLen(m, q.text) + 1, block, block + size)
    && Disjunct(q.text, q.text + StrLen(m, q.text) + 1, mods, mods + 16 * count)
  }

  /**
   * The block of the given size takes the modules: bodies end below it, strings and records lie
   * outside it, and records do not overlap bodies or strings.
   */
  ghost predicate Layout(m: seq<Byte>, mods: nat, count: nat, block: nat, size: nat)
  {
    && ModulesOk(m, mods, count)
    && block + size <= |m|
    && Disjunct(mods, mods + 16 * count, block, block + size)
    && forall i :: 0 <= i < count ==> LayoutOf(m, mods, count, block, size, ModuleAt(m, mods, i))
  }

  /** Module j of m0 is in its slot in m, and its record says so. */
  ghost predicate InSlot(m0: seq<Byte>, m: seq<Byte>, mods: nat, count: nat, block: nat, size: nat, j: nat)
    requires ModulesOk(m0, mods, count) && j < count && |m| == |m0|
  {
    var q := ModuleAt(m0, mods, j);
    var at := block + Offset(Needs(m0, mods, count), size, j);
    && 0 <= at && at + (q.end - q.start) < 0x1_0000_0000
    && ModuleAt(m, mods, j) == Module(at, at + (q.end - q.start), at + (q.end - q.start))
    && CopiedTo(m0, m, q, at)
  }

  /** The modules from i on have been moved, and only their slots and records have changed. */
  ghost predicate MovedFrom(m0: seq<Byte>, m: seq<Byte>, mods: nat, count: nat, block: nat, size: nat, i: nat)
    requires ModulesOk(m0, mods, count) && i <= count
  {
    && |m| == |m0|
    && KeptOutside(m0, m, block + Offset(Needs(m0, mods, count), size, i), block + size, mods + 16 * i,
                   mods + 16 * count)
    && forall j :: i <= j < count ==> InSlot(m0, m, mods, count, block, size, j)
  }

  /** Before the first copy nothing has moved. */
  lemma NothingMoved(m: seq<Byte>, mods: nat, count: nat, block: nat, size: nat)
    requires ModulesOk(m, mods, count)
    ensures MovedFrom(m, m, mods, count, block, size, count)
  {
  }

  lemma RecordKept(m0: seq<Byte>, m: seq<Byte>, mods: nat, i: nat)
    requires mods + 16 * i + 16 <= |m0|
    requires Same(m0, m, mods + 16 * i, mods + 16 * i + 12)
    ensures mods + 16 * i + 16 <= |m| && ModuleAt(m, mods, i) == ModuleAt(m0, mods, i)
  {
    WordKept(m0, m, mods + 16 * i);
    WordKept(m0, m, mods + 16 * i + 4);
    WordKept(m0, m, mods + 16 * i + 8);
  }

  /** What a module consists of stays when only addresses above the block and later records change. */
  lemma SourceStays(m0: seq<Byte>, m: seq<Byte>, q: Module, mods: nat, count: nat, block: nat, size: nat, at: nat,
                    i: nat)
    requires ModuleOk(m0, q) && LayoutOf(m0, mods, count, block, size, q) && i <= count
    requires block <= at && KeptOutside(m0, m, at, block + size, mods + 16 * i, mods + 16 * count)
    ensures Same(m0, m, q.start, q.end)
    ensures Same(m0, m, q.text, q.text + StrLen(m0, q.text) + 1)
  {
    hide StrLen, Terminated;
  }

  lemma MovableFrom(m0: seq<Byte>, m: seq<Byte>, q: Module, mods: nat, count: nat, block: nat, size: nat, at: nat,
                    i: nat)
    requires ModuleOk(m0, q) && ModuleOk(m, q) && StrLen(m, q.text) == StrLen(m0, q.text)
    requires LayoutOf(m0, mods, count, block, size, q) && Disjunct(mods, mods + 16 * count, block, block + size)
    requires i < count && mods + 16 * i + 16 <= |m| && ModuleAt(m, mods, i) == q
    requires block <= at && at + Need(m0, q) <= block + size
    ensures Movable(m, mods, i, at, q.end - q.start, StrLen(m0, q.text) + 1)
  {
    hide StrLen, Terminated, ModuleAt;
  }

  /** While the modules above i are in place, module i is still where it was, and can be moved. */
  lemma StillThere(m0: seq<Byte>, m: seq<Byte>, mods: nat, count: nat, block: nat, size: nat, i: nat)
    requires Layout(m0, mods, count, block, size)
    requires i < count && MovedFrom(m0, m, mods, count, block, size, i + 1)
    requires Offset(Needs(m0, mods, count), size, i) >= 0
    ensures mods + 16 * i + 16 <= |m| && ModuleAt(m, mods, i) == ModuleAt(m0, mods, i)
    ensures ModuleOk(m, ModuleAt(m, mods, i)) && Need(m, ModuleAt(m, mods, i)) == Need(m0, ModuleAt(m0, mods, i))
    ensures var q := ModuleAt(m0, mods, i);
            && Same(m0, m, q.start, q.end)
            && CString(m, q.text) == CString(m0, q.text)
    ensures var q := ModuleAt(m0, mods, i);
            Movable(m, mods, i, block + Offset(Needs(m0, mods, count), size, i), q.end - q.start,
                    StrLen(m0, q.text) + 1)
  {
    hide SlotsSize, StrLen, Terminated, CString, ModuleAt, InSlot, Needs, Offset, LayoutOf, Movable;
    var needs := Needs(m0, mods, count);
    var q := ModuleAt(m0, mods, i);
    OffsetStep(needs, size, i);
    OffsetOrder(needs, size, i + 1, count);
    RecordKept(m0, m, mods, i);
    SourceStays(m0, m, q, mods, count, block, size, block + Offset(needs, size, i + 1), i + 1);
    StringKept(m0, m, q.text);
    MovableFrom(m0, m, q, mods, count, block, size, block + Offset(needs, size, i), i);
  }

  /** Only slot i and its record have changed. */
  ghost predicate OneSlot(m: seq<Byte>, m': seq<Byte>, mods: nat, needs: seq<nat>, block: nat, size: nat, i: nat)
    requires i < |needs|
  {
    var at := Offset(needs, size, i);
    at >= 0 && KeptOutside(m, m', block + at, block + at + needs[i], mods + 16 * i, mods + 16 * i + 12)
  }

  /** Module j above i stays in its slot while module i is placed. */
  lemma OthersStay(m0: seq<Byte>, m: seq<Byte>, m': seq<Byte>, mods: nat, count: nat, block: nat, size: nat, i: nat,
                   j: nat)
    requires Layout(m0, mods, count, block, size)
    requires i < j < count && |m| == |m0|
    requires InSlot(m0, m, mods, count, block, size, j)
    requires OneSlot(m, m', mods, Needs(m0, mods, count), block, size, i)
    ensures InSlot(m0, m', mods, count, block, size, j)
  {
    hide SlotsSize, StrLen, Terminated, CString, ModuleAt, LayoutOf;
    var needs := Needs(m0, mods, count);
    var q := ModuleAt(m0, mods, j);
    var at := block + Offset(needs, size, j);
    var len := q.end - q.start;
    OffsetOrder(needs, size, i, j);
    OffsetOrder(needs, size, j, count);
    OffsetStep(needs, size, j);
    OffsetOrder(needs, size, j + 1, count);
    RecordKept(m, m', mods, j);
    SameSlice(m, m', at, at + len);
    SameSlice(m, m', at + len, at + Need(m0, q));
  }

  /** A body and string that are as they were are copied to the same effect. */
  lemma CopiedFrom(m0: seq<Byte>, m: seq<Byte>, m': seq<Byte>, q: Module, at: nat)
    requires |m0| == |m| && ModuleOk(m0, q) && ModuleOk(m, q)
    requires Same(m0, m, q.start, q.end) && CString(m, q.text) == CString(m0, q.text)
    requires Need(m, q) == Need(m0, q)
    requires CopiedTo(m, m', q, at)
    ensures CopiedTo(m0, m', q, at)
  {
    SameSlice(m0, m, q.start, q.end);
  }

  /** Two changes, one below the other, keep everything else. */
  lemma KeptStep(m0: seq<Byte>, m: seq<Byte>, m': seq<Byte>, lo: int, mid: int, mid': int, hi: int, r: int, end: int)
    requires KeptOutside(m0, m, mid', hi, r + 16, end)
    requires KeptOutside(m, m', lo, mid, r, r + 12)
    requires lo <= mid <= mid' <= hi && r + 16 <= end
    ensures KeptOutside(m0, m', lo, hi, r, end)
  {
  }

  lemma OwnSlot(m0: seq<Byte>, m: seq<Byte>, m': seq<Byte>, mods: nat, count: nat, block: nat, size: nat, i: nat,
                modlen: nat, slen: nat)
    requires Layout(m0, mods, count, block, size) && i < count && |m0| <= 0x1_0000_0000
    requires MovedFrom(m0, m, mods, count, block, size, i + 1)
    requires Offset(Needs(m0, mods, count), size, i) >= 0
    requires modlen == ModuleAt(m0, mods, i).end - ModuleAt(m0, mods, i).start
    requires modlen + slen == Needs(m0, mods, count)[i]
    requires var at := block + Offset(Needs(m0, mods, count), size, i);
             && at + modlen < 0x1_0000_0000
             && |m| == |m'| && ModuleAt(m, mods, i) == ModuleAt(m0, mods, i) && ModuleOk(m, ModuleAt(m, mods, i))
             && Placed(m, m', mods, i, at, modlen, slen)
    ensures InSlot(m0, m', mods, count, block, size, i)
    ensures OneSlot(m, m', mods, Needs(m0, mods, count), block, size, i)
    ensures KeptOutside(m0, m', block + Offset(Needs(m0, mods, count), size, i), block + size, mods + 16 * i,
                        mods + 16 * count)
  {
    hide SlotsSize, StrLen, Terminated, CString, ModuleAt, CopiedTo, Need, KeptOutside, LayoutOf, Needs, Offset, Same;
    hide Movable;
    var needs := Needs(m0, mods, count);
    var at := block + Offset(needs, size, i);
    StillThere(m0, m, mods, count, block, size, i);
    CopiedFrom(m0, m, m', ModuleAt(m0, mods, i), at);
    OffsetStep(needs, size, i);
    OffsetOrder(needs, size, i + 1, count);
    KeptStep(m0, m, m', at, at + modlen + slen, block + Offset(needs, size, i + 1), block + size,
             mods + 16 * i, mods + 16 * count);
  }

  /** One more module in its slot. */
  lemma MovedStep(m0: seq<Byte>, m: seq<Byte>, m': seq<Byte>, mods: nat, count: nat, block: nat, size: nat, i: nat,
                  modlen: nat, slen: nat)
    requires Layout(m0, mods, count, block, size) && |m0| <= 0x1_0000_0000
    requires i < count && MovedFrom(m0, m, mods, count, block, size, i + 1)
    requires Offset(Needs(m0, mods, count), size, i) >= 0
    requires modlen == ModuleAt(m0, mods, i).end - ModuleAt(m0, mods, i).start
    requires modlen + slen == Needs(m0, mods, count)[i]
    requires var at := block + Offset(Needs(m0, mods, count), size, i);
             && at + modlen < 0x1_0000_0000
             && |m| == |m'| && ModuleAt(m, mods, i) == ModuleAt(m0, mods, i) && ModuleOk(m, ModuleAt(m, mods, i))
             && Placed(m, m', mods, i, at, modlen, slen)
    ensures MovedFrom(m0, m', mods, count, block, size, i)
  {
    hide SlotsSize, StrLen, Terminated, CString, ModuleAt, InSlot, Need, KeptOutside, LayoutOf, CopiedTo, Needs, Offset;
    hide OneSlot, Placed, ModuleOk;
    OwnSlot(m0, m, m', mods, count, block, size, i, modlen, slen);
    forall j | i < j < count
      ensures InSlot(m0, m', mods, count, block, size, j)
    {
      OthersStay(m0, m, m', mods, count, block, size, i, j);
    }
  }

  lemma {:induction false} TotalPrefix(needs: seq<nat>, extra: nat, k: nat)
    requires k <= |needs|
    ensures TotalSize(needs[..k], extra) <= TotalSize(needs, extra)
    ensures k < |needs| ==> TotalSize(needs[..k], extra) + needs[k] <= PageUp(TotalSize(needs[..k], extra) + needs[k])
                         == TotalSize(needs[..k + 1], extra) <= TotalSize(needs, extra)
    decreases |needs| - k
  {
    hide PageUp;
    if k == |needs| {
      assert needs[..k] == needs;
    } else {
      TotalPrefix(needs, extra, k + 1);
      assert needs[..k + 1][..k] == needs[..k];
      PageUpFacts(TotalSize(needs[..k], extra) + needs[k]);
    }
  }

  lemma TotalNothing(extra: nat)
    ensures TotalSize([], extra) == extra
  {
  }

  /** One round of the sizing pass, in 32 bits. */
  method AddSize(mem: array<Byte>, q: Module, before: Word) returns (size: Word, modlen: Word, slen: Word)
    requires mem.Length <= 0x1_0000_0000
    requires ModuleOk(mem[..], q)
    requires before + Need(mem[..], q) + 0xFFF < 0x1_0000_0000
    ensures size == PageUp(before + Need(mem[..], q))
    ensures modlen == q.end - q.start && slen == StrLen(mem[..], q.text) + 1
  {
    hide PageDown, Wrap, StrLen;
    modlen := q.end - q.start;
    var n := StrLenOf(mem, q.text);
    slen := n + 1;
    WrapBelow(before as int + modlen);
    WrapBelow(before as int + modlen + slen);
    WrapBelow(before as int + modlen + slen + 0xFFF);
    size := Wrap(before as int + modlen);
    size := Wrap(size as int + slen);
    PageFacts(size as int + 0xFFF);
    size := PageDown(Wrap(size as int + 0xFFF));
  }

  /** The sizing pass: lengths of all bodies and strings, and the block they need with the extra space. */
  method Sizes(mem: array<Byte>, mods: nat, count: nat, extra: Word)
    returns (size: Word, modlens: array<Word>, slens: array<Word>)
    requires mem.Length <= 0x1_0000_0000
    requires ModulesOk(mem[..], mods, count)
    requires TotalSize(Needs(mem[..], mods, count), extra) + 0xFFF < 0x1_0000_0000
    ensures size == TotalSize(Needs(mem[..], mods, count), extra)
    ensures fresh(modlens) && fresh(slens) && modlens.Length == slens.Length == count
    ensures forall i :: 0 <= i < count ==>
              var q := ModuleAt(mem[..], mods, i);
              modlens[i] == q.end - q.start && slens[i] == StrLen(mem[..], q.text) + 1
  {
    hide PageUp, StrLen, Terminated, ModuleAt, Needs, Need, TotalSize;
    TotalNothing(extra);
    ghost var m := mem[..];
    ghost var needs := Needs(m, mods, count);
    size := extra;
    modlens, slens := new Word[count], new Word[count];
    var i := 0;
    assert needs[..0] == [];
    while i < count
      invariant 0 <= i <= count
      invariant mem[..] == m
      invariant size == TotalSize(needs[..i], extra)
      invariant forall j :: 0 <= j < i ==>
                  var q := ModuleAt(m, mods, j);
                  modlens[j] == q.end - q.start && slens[j] == StrLen(m, q.text) + 1
    {
      TotalPrefix(needs, extra, i);
      TotalPrefix(needs, extra, count);
      var modlen: Word, slen: Word;
      size, modlen, slen := AddSize(mem, ModuleAt(mem[..], mods, i), size);
      modlens[i], slens[i] := modlen, slen;
      assert needs[..i + 1][..i] == needs[..i];
      i := i + 1;
    }
    assert needs[..count] == needs;
  }

  /** (x + y + 0xFFF) & ~0xFFF in 32 bits. */
  function PageRounded(x: Word, y: Word, ghost size: nat): Word
    requires PageUp(x as int + y) <= size && size + 0xFFF < 0x1_0000_0000
    ensures PageRounded(x, y, size) == PageUp(x as int + y)
  {
    PageUpFacts(x as int + y);
    WrapBelow(x as int + y);
    WrapBelow(x as int + y + 0xFFF);
    PageFacts(x as int + y + 0xFFF);
    PageDown(Wrap(Wrap(x as int + y) as int + 0xFFF))
  }

  /** The copying pass, from the last module to the first; the result is what is left in front. */
  method CopyAll(mem: array<Byte>, mods: nat, count: nat, block: nat, size: nat, modlens: array<Word>,
                 slens: array<Word>)
    returns (left: nat)
    requires mem.Length <= 0x1_0000_0000
    requires ModulesOk(mem[..], mods, count) && Layout(mem[..], mods, count, block, size)
    requires block + size <= mem.Length && size + 0xFFF < 0x1_0000_0000
    requires SlotsSize(Needs(mem[..], mods, count)) <= size
    requires modlens.Length == slens.Length == count
    requires forall i :: 0 <= i < count ==>
               var q := ModuleAt(mem[..], mods, i);
               modlens[i] == q.end - q.start && slens[i] == StrLen(mem[..], q.text) + 1
    modifies mem
    ensures left == size - SlotsSize(Needs(old(mem[..]), mods, count))
    ensures MovedFrom(old(mem[..]), mem[..], mods, count, block, size, 0)
  {
    hide PageUp, StrLen, Terminated, ModuleAt, SlotsSize, CString, MovedFrom, Layout, Movable, Placed;
    ghost var m0 := mem[..];
    ghost var needs := Needs(m0, mods, count);
    ghost var lens, texts := modlens[..], slens[..];
    NothingMoved(m0, mods, count, block, size);
    OffsetEnd(needs, size);
    left := size;
    var i := count;
    while i > 0
      invariant 0 <= i <= count
      invariant left == Offset(needs, size, i)
      invariant modlens[..] == lens && slens[..] == texts
      invariant MovedFrom(m0, mem[..], mods, count, block, size, i)
    {
      i := i - 1;
      OffsetStep(needs, size, i);
      OffsetOrder(needs, size, 0, i);
      OffsetOrder(needs, size, i, count);
      assert needs[0..] == needs;
      StillThere(m0, mem[..], mods, count, block, size, i);
      left := left - PageRounded(slens[i], modlens[i], size);
      ghost var m := mem[..];
      PlaceModule(mem, mods, i, block + left, modlens[i], slens[i]);
      MovedStep(m0, m, mem[..], mods, count, block, size, i, modlens[i], slens[i]);
    }
    assert needs[0..] == needs;
  }

  /** How the loader's search for the block ended. */
  datatype Outcome = Stopped | Relocated(block: Word) | AlreadyThere(block: Word) | NotMoved(block: Word)

  ghost predicate ClearOf(m: seq<Byte>, mods: nat, count: nat, block: nat, size: nat, q: Module)
    requires ModuleOk(m, q)
  {
    && Disjunct(q.start, q.end, mods, mods + 16 * count)
    && Disjunct(q.text, q.text + StrLen(m, q.text) + 1, block, block + size)
    && Disjunct(q.text, q.text + StrLen(m, q.text) + 1, mods, mods + 16 * count)
  }

  /** The block is in memory, and the addresses that the relocation must not touch lie outside of it. */
  ghost predicate Clear(m: seq<Byte>, mods: nat, count: nat, block: nat, size: nat)
    requires ModulesOk(m, mods, count)
  {
    && block + size <= |m|
    && Disjunct(mods, mods + 16 * count, block, block + size)
    && forall i :: 0 <= i < count ==> ClearOf(m, mods, count, block, size, ModuleAt(m, mods, i))
  }

  /** The first module that ends above the address, or the count. */
  ghost function FirstAbove(m: seq<Byte>, mods: nat, count: nat, addr: int): (i: nat)
    requires mods + 16 * count <= |m|
    ensures i <= count
    ensures i < count ==> ModuleAt(m, mods, i).end > addr
    ensures forall j :: 0 <= j < i ==> ModuleAt(m, mods, j).end <= addr
  {
    if count == 0 then 0
    else
      var i := FirstAbove(m, mods, count - 1, addr);
      if i < count - 1 then i
      else if ModuleAt(m, mods, count - 1).end > addr then count - 1
      else count
  }

  /** What the loader finds out about the block before it copies anything. */
  ghost function Plan(m: seq<Byte>, mods: nat, count: nat, rs: seq<Region>, physMax: int, extra: nat): Outcome
    requires ModulesOk(m, mods, count)
  {
    var size := TotalSize(Needs(m, mods, count), extra);
    var best, free := Chosen(rs, size, physMax), Chosen(rs, extra, physMax);
    if physMax > size && best.Some? then
      var i := FirstAbove(m, mods, count, best.value);
      if i == count then Relocated(best.value)
      else if ModuleAt(m, mods, i).start == best.value then AlreadyThere(best.value)
      else Stopped
    else if physMax > extra && free.Some? then NotMoved(free.value)
    else Stopped
  }

  lemma LayoutClear(m: seq<Byte>, mods: nat, count: nat, block: nat, size: nat)
    requires ModulesOk(m, mods, count) && Clear(m, mods, count, block, size)
    requires FirstAbove(m, mods, count, block) == count
    ensures block + size <= |m|
    ensures Layout(m, mods, count, block, size)
  {
    hide StrLen, Terminated, ModuleAt;
    forall i | 0 <= i < count
      ensures LayoutOf(m, mods, count, block, size, ModuleAt(m, mods, i))
    {
      assert ClearOf(m, mods, count, block, size, ModuleAt(m, mods, i));
    }
  }

  /** The overlap check: the first module that ends above the address, or the count. */
  method CheckOverlap(mem: array<Byte>, mods: nat, count: nat, addr: Word) returns (i: nat)
    requires mods + 16 * count <= mem.Length
    ensures i == FirstAbove(mem[..], mods, count, addr)
  {
    hide ModuleAt;
    i := 0;
    while i < count
      invariant 0 <= i <= count
      invariant forall j :: 0 <= j < i ==> ModuleAt(mem[..], mods, j).end <= addr
    {
      if ModuleAt(mem[..], mods, i).end > addr {
        return;
      }
      i := i + 1;
    }
  }

  /** A place chosen by the search is an address, and the bytes end at or below the limit. */
  lemma ChosenAddress(rs: seq<Region>, len: nat, limit: int)
    requires Select(rs, len, limit).Some?
    ensures 0 <= Select(rs, len, limit).value
    ensures Select(rs, len, limit).value + len <= limit
  {
    SelectSound(rs, len, limit);
    var i :| 0 <= i < |rs| && Holds(rs[i], len, limit)
      && Select(rs, len, limit).value == HighestStart(rs[i], len, limit);
    ChosenInside(rs[i], len, limit);
  }

  /** Check the block for overlaps and move the modules into it. */
  method RelocateInto(mem: array<Byte>, mods: Word, count: Word, extra: Word, block: Word, blockLen: Word, size: Word,
                      modlens: array<Word>, slens: array<Word>)
    returns (r: Outcome)
    requires mem.Length <= 0x1_0000_0000
    requires ModulesOk(mem[..], mods, count)
    requires blockLen == size && size + 0xFFF < 0x1_0000_0000
    requires SlotsSize(Needs(mem[..], mods, count)) <= size
    requires FirstAbove(mem[..], mods, count, block) == count ==> Clear(mem[..], mods, count, block, size)
    requires modlens.Length == slens.Length == count
    requires forall i :: 0 <= i < count ==>
               var q := ModuleAt(mem[..], mods, i);
               modlens[i] == q.end - q.start && slens[i] == StrLen(mem[..], q.text) + 1
    modifies mem
    ensures ModulesOk(old(mem[..]), mods, count)
    ensures var i := old(FirstAbove(mem[..], mods, count, block));
            var left := size - SlotsSize(Needs(old(mem[..]), mods, count));
            if i < count then
              r == (if ModuleAt(old(mem[..]), mods, i).start == block then AlreadyThere(block) else Stopped)
                && mem[..] == old(mem[..])
            else
              r == (if left >= extra then Relocated(block) else Stopped)
              && MovedFrom(old(mem[..]), mem[..], mods, count, block, size, 0)
  {
    hide SlotsSize, ModuleAt, MovedFrom, Layout, Clear, StrLen, Terminated, FirstAbove, Needs, ModuleOk;
    var reladdr := Wrap(block as int + blockLen - size);
    var i := CheckOverlap(mem, mods, count, reladdr);
    if i < count {
      r := if ModuleAt(mem[..], mods, i).start == reladdr then AlreadyThere(block) else Stopped;
      return;
    }
    LayoutClear(mem[..], mods, count, block, size);
    var left := CopyAll(mem, mods, count, block, size, modlens, slens);
    r := if left >= extra then Relocated(block) else Stopped;
  }

  /**
   * Push all modules to the highest available memory below physMax, with extra bytes left free
   * in front of them. The result is the block; a failed assertion stops the machine.
   */
  method RelocateModules(mem: array<Byte>, mbi: Mbi, physMax: Quad, extra: Word) returns (r: Outcome)
    requires mem.Length == 0x1_0000_0000
    requires ModulesOk(mem[..], mbi.modsAddr, mbi.modsCount)
    requires TotalSize(Needs(mem[..], mbi.modsAddr, mbi.modsCount), extra) + 0xFFF < 0x1_0000_0000
    requires MapOk(mem[..], mbi.mmapAddr, mbi.mmapLength) && AllInRange(Regions(mem[..], mbi.mmapAddr, mbi.mmapLength))
    requires var plan := Plan(mem[..], mbi.modsAddr, mbi.modsCount, Regions(mem[..], mbi.mmapAddr, mbi.mmapLength),
                              physMax, extra);
             plan.Relocated? ==>
               Clear(mem[..], mbi.modsAddr, mbi.modsCount, plan.block,
                     TotalSize(Needs(mem[..], mbi.modsAddr, mbi.modsCount), extra))
    modifies mem
    ensures ModulesOk(old(mem[..]), mbi.modsAddr, mbi.modsCount)
    ensures MapOk(old(mem[..]), mbi.mmapAddr, mbi.mmapLength)
    ensures var needs := Needs(old(mem[..]), mbi.modsAddr, mbi.modsCount);
            var size := TotalSize(needs, extra);
            var plan := Plan(old(mem[..]), mbi.modsAddr, mbi.modsCount,
                             Regions(old(mem[..]), mbi.mmapAddr, mbi.mmapLength), physMax, extra);
            && (r == plan || (plan.Relocated? && r == Stopped && size - SlotsSize(needs) < extra))
            && (r.Relocated? ==>
                  && size - SlotsSize(needs) >= extra
                  && MovedFrom(old(mem[..]), mem[..], mbi.modsAddr, mbi.modsCount, r.block, size, 0))
            && (!plan.Relocated? ==> mem[..] == old(mem[..]))
  {
    hide TotalSize, SlotsSize, ModuleAt, MapOk, Regions, AllInRange, Chosen, MovedFrom, Layout, Clear, StrLen;
    hide Terminated, FirstAbove, Needs, ModuleOk;
    ghost var m0 := mem[..];
    ghost var rs := Regions(m0, mbi.mmapAddr, mbi.mmapLength);
    ghost var needs := Needs(m0, mbi.modsAddr, mbi.modsCount);
    var size, modlens, slens := Sizes(mem, mbi.modsAddr, mbi.modsCount, extra);
    PassesAgree(needs, extra);
    var found, block, blockLen := FindMemory(mem, mbi, size, true, physMax);
    if !found {
      found, block, blockLen := FindMemory(mem, mbi, extra, true, physMax);
      r := if found then NotMoved(block) else Stopped;
      return;
    }
    r := RelocateInto(mem, mbi.modsAddr, mbi.modsCount, extra, block, blockLen, size, modlens, slens);
  }

  lemma SameLength(m: seq<Byte>, m': seq<Byte>, a: nat, a': nat)
    requires Terminated(m, a) && Terminated(m', a')
    requires CString(m, a) == CString(m', a')
    ensures StrLen(m, a) == StrLen(m', a')
  {
    assert |CString(m, a)| == StrLen(m, a) + 1;
    assert |CString(m', a')| == StrLen(m', a') + 1;
  }

  /** A module in its slot: its record points to its body and its string, which are the originals. */
  lemma SlotReadable(m0: seq<Byte>, m: seq<Byte>, mods: nat, count: nat, block: nat, size: nat, j: nat)
    requires ModulesOk(m0, mods, count) && j < count && |m| == |m0|
    requires InSlot(m0, m, mods, count, block, size, j)
    ensures var q, q' := ModuleAt(m0, mods, j), ModuleAt(m, mods, j);
            && q'.start == block + Offset(Needs(m0, mods, count), size, j)
            && ModuleOk(m, q') && Need(m, q') == Need(m0, q)
            && q'.text == q'.end && q'.end - q'.start == q.end - q.start
            && m[q'.start..q'.end] == m0[q.start..q.end]
            && CString(m, q'.text) == CString(m0, q.text)
  {
    hide ModuleAt, SlotsSize, StrLen;
    var q, q' := ModuleAt(m0, mods, j), ModuleAt(m, mods, j);
    StringAt(m0, q.text, m, q'.text);
    SameLength(m0, m, q.text, q'.text);
  }

  /** Module i of m0, intact in m: its record points to its body, with its string behind it,
      behind the extra space of the block. */
  ghost predicate Arrived(m0: seq<Byte>, m: seq<Byte>, mods: nat, i: nat, block: nat, extra: nat, size: nat)
    requires mods + 16 * i + 16 <= |m0| && |m| == |m0|
  {
    var q, q' := ModuleAt(m0, mods, i), ModuleAt(m, mods, i);
    && ModuleOk(m0, q) && ModuleOk(m, q')
    && block + extra <= q'.start && q'.start + Need(m0, q) <= block + size
    && q'.text == q'.end && Need(m, q') == Need(m0, q)
    && m[q'.start..q'.end] == m0[q.start..q.end]
    && CString(m, q'.text) == CString(m0, q.text)
  }

  lemma OneArrived(m0: seq<Byte>, m: seq<Byte>, mods: nat, count: nat, block: nat, size: nat, extra: nat, i: nat)
    requires ModulesOk(m0, mods, count) && i < count && |m| == |m0|
    requires InSlot(m0, m, mods, count, block, size, i)
    requires Offset(Needs(m0, mods, count), size, 0) == extra
    ensures Arrived(m0, m, mods, i, block, extra, size)
    ensures ModuleAt(m, mods, i).start == block + Offset(Needs(m0, mods, count), size, i)
  {
    hide ModuleAt, StrLen, Terminated, CString, InSlot, Offset;
    var needs := Needs(m0, mods, count);
    SlotReadable(m0, m, mods, count, block, size, i);
    OffsetOrder(needs, size, 0, i);
    OffsetStep(needs, size, i);
    OffsetOrder(needs, size, i + 1, count);
  }

  /** The slots start right behind the extra space. */
  lemma ExtraInFront(needs: seq<nat>, size: nat, extra: nat)
    requires size == TotalSize(needs, extra) && extra % 0x1000 == 0
    ensures Offset(needs, size, 0) == extra
    ensures size % 0x1000 == 0
  {
    PassesAgree(needs, extra);
    assert needs[0..] == needs;
  }

  /**
   * With a page-multiple extra space, what relocation leaves behind: every module and its string
   * intact at its new address, in ordered, page-aligned slots behind the extra space, and nothing
   * written to the extra space or anywhere else but the records.
   */
  lemma RelocatedModules(m0: seq<Byte>, m: seq<Byte>, mods: nat, count: nat, block: nat, size: nat, extra: nat)
    requires ModulesOk(m0, mods, count)
    requires size == TotalSize(Needs(m0, mods, count), extra) && extra % 0x1000 == 0
    requires MovedFrom(m0, m, mods, count, block, size, 0)
    ensures ModulesOk(m, mods, count)
    ensures KeptOutside(m0, m, block + extra, block + size, mods, mods + 16 * count)
    ensures forall i :: 0 <= i < count ==> Arrived(m0, m, mods, i, block, extra, size)
    ensures block % 0x1000 == 0 ==> forall i :: 0 <= i < count ==> ModuleAt(m, mods, i).start % 0x1000 == 0
    ensures forall i, j :: 0 <= i < j < count ==>
              ModuleAt(m, mods, i).start + Need(m0, ModuleAt(m0, mods, i)) <= ModuleAt(m, mods, j).start
  {
    hide ModuleAt, StrLen, Terminated, CString, TotalSize, PageUp, Needs, InSlot, Offset;
    var needs := Needs(m0, mods, count);
    ExtraInFront(needs, size, extra);
    forall i | 0 <= i < count
      ensures Arrived(m0, m, mods, i, block, extra, size)
      ensures ModuleAt(m, mods, i).start == block + Offset(needs, size, i)
      ensures block % 0x1000 == 0 ==> ModuleAt(m, mods, i).start % 0x1000 == 0
    {
      OneArrived(m0, m, mods, count, block, size, extra, i);
      OffsetAligned(needs, size, i);
      SumAligned(block, Offset(needs, size, i));
    }
    forall i, j | 0 <= i < j < count
      ensures ModuleAt(m, mods, i).start + Need(m0, ModuleAt(m0, mods, i)) <= ModuleAt(m, mods, j).start
    {
      OffsetOrder(needs, size, i, j);
    }
  }

  lemma WrapAligned(x: int)
    requires x % 0x1000 == 0
    ensures Wrap(x) % 0x1000 == 0
  {
  }

  /** The chosen block is page aligned when its size and the limit are. */
  lemma {:induction false} BlockAligned(rs: seq<Region>, size: nat, physMax: int)
    requires size % 0x1000 == 0 && physMax % 0x1000 == 0
    requires Chosen(rs, size, physMax).Some?
    ensures Chosen(rs, size, physMax).value % 0x1000 == 0
  {
    hide PageDown, PageUp, Holds, Wrap;
    var init, r := rs[..|rs| - 1], rs[|rs| - 1];
    if Chosen(init, size, physMax).Some? {
      BlockAligned(init, size, physMax);
    }
    PageFacts(r.base + r.len);
    SumAligned(PageDown(r.base + r.len), -(size as int));
    SumAligned(physMax, -(size as int));
    WrapAligned(HighestStart(r, size, physMax));
  }

  /** What the modules need does not change with their place. */
  lemma NeedsKept(m0: seq<Byte>, m: seq<Byte>, mods: nat, count: nat, block: nat, extra: nat, size: nat)
    requires ModulesOk(m0, mods, count) && ModulesOk(m, mods, count) && |m| == |m0|
    requires forall i :: 0 <= i < count ==> Arrived(m0, m, mods, i, block, extra, size)
    ensures Needs(m, mods, count) == Needs(m0, mods, count)
  {
    hide ModuleAt, Terminated, StrLen, CString, Need;
    var before, after := Needs(m0, mods, count), Needs(m, mods, count);
    forall i | 0 <= i < count
      ensures after[i] == before[i]
    {
      assert Arrived(m0, m, mods, i, block, extra, size);
    }
    assert after == before;
  }

  lemma FirstEndsAbove(m0: seq<Byte>, m: seq<Byte>, mods: nat, count: nat, block: nat, size: nat, extra: nat)
    requires ModulesOk(m, mods, count) && count > 0 && |m| == |m0| && mods + 16 * count <= |m|
    requires Arrived(m0, m, mods, 0, block, extra, size) && extra > 0
    ensures FirstAbove(m, mods, count, block) == 0
    ensures ModuleAt(m, mods, 0).start != block
  {
    hide ModuleAt, Terminated, StrLen, CString;
  }

  /**
   * After a relocation with extra space, the overlap check does not recognise its own layout: the
   * first module ends above the block, but starts behind the extra space. When the same block is
   * found again, the next relocation stops.
   */
  lemma SecondRelocationStops(m0: seq<Byte>, m: seq<Byte>, mods: nat, count: nat, rs: seq<Region>, physMax: int,
                              extra: nat)
    requires ModulesOk(m0, mods, count) && count > 0 && |m0| <= 0x1_0000_0000
    requires 0 < extra && extra % 0x1000 == 0
    requires Plan(m0, mods, count, rs, physMax, extra).Relocated?
    requires MovedFrom(m0, m, mods, count, Plan(m0, mods, count, rs, physMax, extra).block,
                       TotalSize(Needs(m0, mods, count), extra), 0)
    ensures ModulesOk(m, mods, count)
    ensures Plan(m, mods, count, rs, physMax, extra) == Stopped
  {
    hide ModuleAt, Terminated, StrLen, CString, TotalSize, Needs, Chosen, Offset, ModuleOk, InSlot;
    var block, size := Plan(m0, mods, count, rs, physMax, extra).block, TotalSize(Needs(m0, mods, count), extra);
    RelocatedModules(m0, m, mods, count, block, size, extra);
    NeedsKept(m0, m, mods, count, block, extra, size);
    FirstEndsAbove(m0, m, mods, count, block, size, extra);
  }

  /** With the modules in order from the start of the block, only a first module that is not empty shows it. */
  lemma FirstInFront(m: seq<Byte>, mods: nat, count: nat, block: nat)
    requires ModulesOk(m, mods, count) && count > 0
    requires ModuleAt(m, mods, 0).start == block
    requires forall i :: 1 <= i < count ==> block < ModuleAt(m, mods, i).start
    ensures var i := FirstAbove(m, mods, count, block);
            (i < count && ModuleAt(m, mods, i).start == block) <==> ModuleAt(m, mods, 0).end > block
  {
    hide ModuleAt, Terminated, StrLen;
    var i := FirstAbove(m, mods, count, block);
    assert ModuleAt(m, mods, 0).end > block ==> i == 0;
  }

  lemma SomeNeeded(m: seq<Byte>, q: Module)
    requires ModuleOk(m, q)
    ensures Need(m, q) >= 1
  {
  }

  lemma ArrivedWhole(m0: seq<Byte>, m: seq<Byte>, mods: nat, block: nat, size: nat)
    requires mods + 16 <= |m0| && |m| == |m0| && Arrived(m0, m, mods, 0, block, 0, size)
    ensures var q, q' := ModuleAt(m0, mods, 0), ModuleAt(m, mods, 0);
            q'.end - q'.start == q.end - q.start
  {
    hide ModuleAt, Terminated, StrLen, CString, Need;
    var q, q' := ModuleAt(m0, mods, 0), ModuleAt(m, mods, 0);
    assert |m[q'.start..q'.end]| == |m0[q.start..q.end]|;
  }

  /** Without extra space, the first module starts with the block, and the others behind. */
  lemma WithoutExtra(m0: seq<Byte>, m: seq<Byte>, mods: nat, count: nat, block: nat, size: nat)
    requires ModulesOk(m0, mods, count) && count > 0 && size == TotalSize(Needs(m0, mods, count), 0)
    requires MovedFrom(m0, m, mods, count, block, size, 0)
    ensures ModuleAt(m, mods, 0).start == block
    ensures ModuleAt(m, mods, 0).end - block == ModuleAt(m0, mods, 0).end - ModuleAt(m0, mods, 0).start
    ensures forall i :: 1 <= i < count ==> block < ModuleAt(m, mods, i).start
  {
    hide ModuleAt, Terminated, StrLen, CString, TotalSize, Needs, Offset, ModuleOk, InSlot, Need;
    RelocatedModules(m0, m, mods, count, block, size, 0);
    ExtraInFront(Needs(m0, mods, count), size, 0);
    OneArrived(m0, m, mods, count, block, size, 0, 0);
    assert Arrived(m0, m, mods, 0, block, 0, size);
    ArrivedWhole(m0, m, mods, block, size);
    SomeNeeded(m0, ModuleAt(m0, mods, 0));
  }

  /**
   * When the same block is found again, the overlap check recognises the layout of an earlier
   * relocation if and only if there is no extra space and the first module is not empty.
   */
  lemma OwnLayoutRecognised(m0: seq<Byte>, m: seq<Byte>, mods: nat, count: nat, rs: seq<Region>, physMax: int,
                            extra: nat)
    requires ModulesOk(m0, mods, count) && count > 0 && |m0| <= 0x1_0000_0000
    requires extra % 0x1000 == 0
    requires Plan(m0, mods, count, rs, physMax, extra).Relocated?
    requires MovedFrom(m0, m, mods, count, Plan(m0, mods, count, rs, physMax, extra).block,
                       TotalSize(Needs(m0, mods, count), extra), 0)
    ensures ModulesOk(m, mods, count)
    ensures Plan(m, mods, count, rs, physMax, extra)
         == AlreadyThere(Plan(m0, mods, count, rs, physMax, extra).block)
       <==> extra == 0 && ModuleAt(m0, mods, 0).start < ModuleAt(m0, mods, 0).end
  {
    hide ModuleAt, Terminated, StrLen, CString, TotalSize, Needs, Chosen, Offset, ModuleOk, InSlot;
    hide FirstAbove, KeptOutside, Arrived;
    if extra > 0 {
      SecondRelocationStops(m0, m, mods, count, rs, physMax, extra);
    } else {
      var block, size := Plan(m0, mods, count, rs, physMax, extra).block, TotalSize(Needs(m0, mods, count), extra);
      RelocatedModules(m0, m, mods, count, block, size, extra);
      NeedsKept(m0, m, mods, count, block, extra, size);
      WithoutExtra(m0, m, mods, count, block, size);
      FirstInFront(m, mods, count, block);
    }
  }

  /** Take the first module off the list. */
  method PopModule(mem: array<Byte>, mbi: Mbi) returns (q: Module)
    requires mbi.modsCount > 0
    requires mbi.modsAddr + 16 * mbi.modsCount <= mem.Length <= 0x1_0000_0000
    requires mbi.modsAddr + 16 < 0x1_0000_0000
    modifies mbi
    ensures q == ModuleAt(mem[..], old(mbi.modsAddr), 0)
    ensures mbi.modsAddr == old(mbi.modsAddr) + 16 && mbi.modsCount == old(mbi.modsCount) - 1
    ensures mbi.flags == old(mbi.flags) && mbi.cmdline == old(mbi.cmdline)
    ensures mbi.mmapAddr == old(mbi.mmapAddr) && mbi.mmapLength == old(mbi.mmapLength)
    ensures forall i :: 0 <= i < mbi.modsCount ==>
              ModuleAt(mem[..], mbi.modsAddr, i) == ModuleAt(mem[..], old(mbi.modsAddr), i + 1)
  {
    hide ReadWord;
    q := ModuleAt(mem[..], mbi.modsAddr, 0);
    mbi.modsAddr := mbi.modsAddr + 16;
    mbi.modsCount := mbi.modsCount - 1;
  }
}

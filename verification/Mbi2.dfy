/**
 * The Multiboot2 boot information: the builder (standalone/mbi2.c) and the reader
 * (standalone/include/mbi2.h). Section 3.6 of the Multiboot2 Specification.
 */
module Mbi2 {
  import opened Bits
  import opened Digits
  import opened Memory
  import opened MemoryMap

  datatype Tag = Tag(kind: Word, payload: seq<Byte>)

  const TAG_END: Word := 0
  const TAG_CMDLINE: Word := 1
  const TAG_MODULE: Word := 3
  const TAG_MEMORY: Word := 6
  const TAG_RSDP_V1: Word := 14
  const TAG_RSDP_V2: Word := 15

  /** Round up to the tag alignment, (x + 7) & ~7. */
  function Up8(x: int): int
  {
    x + 7 - (x + 7) % 8
  }

  lemma Up8Facts(x: int)
    ensures x <= Up8(x) < x + 8
    ensures Up8(x) % 8 == 0
    ensures x % 8 == 0 ==> Up8(x) == x
    ensures Up8(x) == if x % 8 == 0 then x else x + (8 - x % 8)
  {
  }

  lemma Up8Add(a: int, x: int)
    requires a % 8 == 0
    ensures Up8(a + x) == a + Up8(x)
  {
  }

  /** The tag t lies at address a: kind, declared size, payload. */
  ghost predicate TagAt(m: seq<Byte>, a: nat, t: Tag)
  {
    && a + 8 + |t.payload| <= |m|
    && ReadWord(m, a) == t.kind
    && ReadWord(m, a + 4) == 8 + |t.payload|
    && m[a + 8..a + 8 + |t.payload|] == t.payload
  }

  /** Where tag i of an information at start lies: every tag is 8-aligned behind the one before. */
  ghost function At(start: nat, tags: seq<Tag>, i: nat): nat
    requires i <= |tags|
  {
    if i == 0 then start + 8 else Up8(At(start, tags, i - 1) + 8 + |tags[i - 1].payload|)
  }

  /** Where the last tag ends, without padding. */
  ghost function Cursor(start: nat, tags: seq<Tag>): nat
  {
    if tags == [] then start + 8 else At(start, tags, |tags| - 1) + 8 + |tags[|tags| - 1].payload|
  }

  ghost predicate Laid(m: seq<Byte>, start: nat, tags: seq<Tag>)
  {
    forall i :: 0 <= i < |tags| ==> TagAt(m, At(start, tags, i), tags[i])
  }

  /** What the tags take, each padded to the alignment. */
  function PaddedSize(tags: seq<Tag>): nat
  {
    if tags == [] then 0
    else PaddedSize(tags[..|tags| - 1]) + Up8(8 + |tags[|tags| - 1].payload|)
  }

  lemma {:induction false} AtPrefix(start: nat, tags: seq<Tag>, t: Tag, i: nat)
    requires i <= |tags|
    ensures At(start, tags + [t], i) == At(start, tags, i)
  {
    if i > 0 {
      AtPrefix(start, tags, t, i - 1);
    }
  }

  lemma {:induction false} AtAligned(start: nat, tags: seq<Tag>, i: nat)
    requires start % 8 == 0 && i <= |tags|
    ensures At(start, tags, i) % 8 == 0 && At(start, tags, i) >= start + 8
  {
    hide Up8;
    if i > 0 {
      AtAligned(start, tags, i - 1);
      Up8Facts(At(start, tags, i - 1) + 8 + |tags[i - 1].payload|);
    }
  }

  /** Tags are aligned, in order, and do not overlap. */
  lemma {:induction false} AtOrder(start: nat, tags: seq<Tag>, i: nat, j: nat)
    requires start % 8 == 0
    requires i <= j <= |tags|
    ensures At(start, tags, i) % 8 == 0 && At(start, tags, i) >= start + 8
    ensures i < j ==> At(start, tags, i) + 8 + |tags[i].payload| <= At(start, tags, j)
    ensures i < |tags| ==> At(start, tags, i) + 8 + |tags[i].payload| <= Cursor(start, tags)
    ensures Cursor(start, tags) <= At(start, tags, |tags|) == Up8(Cursor(start, tags)) < Cursor(start, tags) + 8
    decreases |tags| - i, |tags| - j, i
  {
    hide Up8;
    AtAligned(start, tags, i);
    Up8Facts(Cursor(start, tags));
    if i < |tags| {
      Up8Facts(At(start, tags, i) + 8 + |tags[i].payload|);
      AtOrder(start, tags, i + 1, if j > i then j else i + 1);
    }
  }

  /** The addresses add up: eight bytes, and the tags with their padding. */
  lemma {:induction false} AtIsPaddedSize(start: nat, tags: seq<Tag>)
    requires start % 8 == 0
    ensures At(start, tags, |tags|) == start + 8 + PaddedSize(tags)
  {
    hide Up8;
    if tags != [] {
      var init, t := tags[..|tags| - 1], tags[|tags| - 1];
      assert tags == init + [t];
      AtIsPaddedSize(start, init);
      AtPrefix(start, init, t, |init|);
      AtAligned(start, tags, |init|);
      Up8Add(At(start, tags, |init|), 8 + |t.payload|);
    }
  }

  lemma TagKept(m: seq<Byte>, m': seq<Byte>, a: nat, t: Tag)
    requires TagAt(m, a, t)
    requires Same(m, m', a, a + 8 + |t.payload|)
    ensures TagAt(m', a, t)
  {
    WordKept(m, m', a);
    WordKept(m, m', a + 4);
    SameSlice(m, m', a + 8, a + 8 + |t.payload|);
  }

  /** Tags stay when everything between the header of the information and the last tag stays. */
  lemma LaidKept(m: seq<Byte>, m': seq<Byte>, start: nat, tags: seq<Tag>)
    requires start % 8 == 0 && Laid(m, start, tags)
    requires Same(m, m', start + 8, Cursor(start, tags))
    ensures Laid(m', start, tags)
  {
    hide TagAt, At, Cursor;
    forall i | 0 <= i < |tags|
      ensures TagAt(m', At(start, tags, i), tags[i])
    {
      AtOrder(start, tags, i, i);
      TagKept(m, m', At(start, tags, i), tags[i]);
    }
  }

  /** One more tag behind the others. */
  lemma LaidSnoc(m: seq<Byte>, start: nat, tags: seq<Tag>, t: Tag)
    requires start % 8 == 0 && Laid(m, start, tags)
    requires TagAt(m, Up8(Cursor(start, tags)), t)
    ensures Laid(m, start, tags + [t])
    ensures Cursor(start, tags + [t]) == Up8(Cursor(start, tags)) + 8 + |t.payload|
  {
    hide TagAt, Up8;
    AtOrder(start, tags, 0, 0);
    AtPrefix(start, tags, t, |tags|);
    var more := tags + [t];
    assert more[..|tags|] == tags && more[|tags|] == t;
    assert Cursor(start, more) == Up8(Cursor(start, tags)) + 8 + |t.payload|;
    hide At, Cursor;
    forall i | 0 <= i < |tags|
      ensures TagAt(m, At(start, more, i), more[i])
    {
      AtPrefix(start, tags, t, i);
    }
  }

  /** Kind zero is the end of the list. */
  ghost predicate Named(tags: seq<Tag>)
  {
    forall i :: 0 <= i < |tags| ==> tags[i].kind != 0
  }

  /** A finished information with these tags: total size, zero, the tags, the end tag. */
  ghost predicate Finished(m: seq<Byte>, start: nat, tags: seq<Tag>)
  {
    && start % 8 == 0 && Named(tags)
    && start + 16 + PaddedSize(tags) <= |m|
    && ReadWord(m, start) == 16 + PaddedSize(tags)
    && ReadWord(m, start + 4) == 0
    && Laid(m, start, tags)
    && TagAt(m, start + 8 + PaddedSize(tags), Tag(TAG_END, []))
  }

  /** The bytes of a memory map entry: base, length, kind, zero. */
  function EntryBytes(r: Region): (b: seq<Byte>)
    ensures |b| == 24
  {
    QuadBytes(r.base) + QuadBytes(r.len) + WordBytes(r.kind) + WordBytes(0)
  }

  function EntriesBytes(rs: seq<Region>): (b: seq<Byte>)
    ensures |b| == 24 * |rs|
  {
    if rs == [] then [] else EntriesBytes(rs[..|rs| - 1]) + EntryBytes(rs[|rs| - 1])
  }

  function MemmapTag(rs: seq<Region>): Tag
  {
    Tag(TAG_MEMORY, WordBytes(24) + WordBytes(0) + EntriesBytes(rs))
  }

  function ModuleTag(start: Word, end: Word, text: seq<Byte>): Tag
  {
    Tag(TAG_MODULE, WordBytes(start) + WordBytes(end) + text)
  }

  /** How much of the root pointer is copied, by its revision. */
  function RsdpLength(m: seq<Byte>, a: nat): nat
    requires a + 36 <= |m|
  {
    if m[a + 15] <= 1 then 20 else ReadWord(m, a + 20)
  }

  function RsdpTag(m: seq<Byte>, a: nat): Tag
    requires a + 36 <= |m| && a + RsdpLength(m, a) <= |m|
  {
    Tag(if m[a + 15] == 1 then TAG_RSDP_V1 else TAG_RSDP_V2, m[a..a + RsdpLength(m, a)])
  }

  /** The tag says "version 1" exactly when the 20 bytes of version 1 were chosen, except for revision 0. */
  lemma RsdpKindMatchesLength(m: seq<Byte>, a: nat)
    requires a + 36 <= |m| && a + RsdpLength(m, a) <= |m|
    ensures (RsdpTag(m, a).kind == TAG_RSDP_V1 <==> m[a + 15] <= 1) <==> m[a + 15] != 0
  {
  }

  /** The entries of the map from a to end lie outside lo to hi. */
  ghost predicate MapClear(m: seq<Byte>, a: nat, end: nat, lo: int, hi: int)
    requires MapReadable(m, a, end)
    decreases end - a
  {
    && Disjunct(a, a + 24, lo, hi)
    && (NextEntry(m, a) < end ==> MapClear(m, NextEntry(m, a), end, lo, hi))
  }

  lemma EntryKept(m: seq<Byte>, m': seq<Byte>, a: nat)
    requires Same(m, m', a, a + 24)
    ensures NextEntry(m', a) == NextEntry(m, a) && RegionAt(m', a) == RegionAt(m, a)
  {
    hide ReadWord;
    WordKept(m, m', a);
    WordKept(m, m', a + 4);
    WordKept(m, m', a + 8);
    WordKept(m, m', a + 12);
    WordKept(m, m', a + 16);
    WordKept(m, m', a + 20);
  }

  /** A map that lies outside the changes stays the same map. */
  lemma {:induction false} MapKept(m: seq<Byte>, m': seq<Byte>, a: nat, end: nat, lo: int, hi: int)
    requires MapReadable(m, a, end) && MapClear(m, a, end, lo, hi)
    requires ChangedOnly(m, m', lo, hi)
    ensures MapReadable(m', a, end) && MapClear(m', a, end, lo, hi)
    ensures RegionsFrom(m', a, end) == RegionsFrom(m, a, end)
    ensures NextEntry(m', a) == NextEntry(m, a) && RegionAt(m', a) == RegionAt(m, a)
    decreases end - a
  {
    hide NextEntry, RegionAt, ReadWord;
    EntryKept(m, m', a);
    WalkStep(m, a, end);
    if NextEntry(m, a) < end {
      MapKept(m, m', NextEntry(m, a), end, lo, hi);
    }
  }

  ghost predicate Source(m: seq<Byte>, text: nat, lo: nat, hi: nat)
  {
    && Terminated(m, text)
    && Disjunct(text, text + StrLen(m, text) + 1, lo, hi)
    && StrLen(m, text) + 17 < 0x1_0000_0000
  }

  lemma SourceKept(m: seq<Byte>, m': seq<Byte>, text: nat, lo: nat, hi: nat)
    requires Source(m, text, lo, hi) && ChangedOnly(m, m', lo, hi)
    ensures text + StrLen(m, text) + 1 <= |m'|
    ensures m'[text..text + StrLen(m, text) + 1] == CString(m, text)
    ensures Source(m', text, lo, hi) && CString(m', text) == CString(m, text)
  {
    SameSlice(m, m', text, text + StrLen(m, text) + 1);
    StringKept(m, m', text);
  }

  lemma SliceKept(m: seq<Byte>, m': seq<Byte>, a: nat, b: nat, lo: int, hi: int, lo': int)
    requires a <= b <= |m| && Disjunct(a, b, lo', hi) && lo' <= lo
    requires ChangedOnly(m, m', lo, hi)
    ensures |m'| == |m| && m'[a..b] == m[a..b]
  {
    SameSlice(m, m', a, b);
  }

  ghost predicate RsdpSource(m: seq<Byte>, a: nat, lo: nat, hi: nat)
  {
    && a + 36 <= |m| && a + RsdpLength(m, a) <= |m|
    && Disjunct(a, a + 36, lo, hi) && Disjunct(a, a + RsdpLength(m, a), lo, hi)
    && 8 + RsdpLength(m, a) < 0x1_0000_0000
  }

  lemma RsdpFacts(m: seq<Byte>, a: nat, lo: nat, hi: nat)
    requires RsdpSource(m, a, lo, hi)
    ensures a + 36 <= |m|
    ensures var len := if m[a + 15] <= 1 then 20 else ReadWord(m, a + 20);
            && RsdpLength(m, a) == len && a + len <= |m| && 8 + len < 0x1_0000_0000
            && Disjunct(a, a + len, lo, hi)
            && RsdpTag(m, a) == Tag(if m[a + 15] == 1 then TAG_RSDP_V1 else TAG_RSDP_V2, m[a..a + len])
  {
  }

  ghost predicate MapSource(m: seq<Byte>, addr: Word, mapEnd: Word, lo: nat, hi: nat)
  {
    && (addr != 0 ==> MapReadable(m, addr, mapEnd) && MapClear(m, addr, mapEnd, lo, hi))
    && 16 + 24 * |MapRegions(m, addr, mapEnd)| < 0x1_0000_0000
  }

  lemma ClearStep(m: seq<Byte>, a: nat, end: nat, lo: int, hi: int)
    requires MapReadable(m, a, end) && MapClear(m, a, end, lo, hi)
    ensures NextEntry(m, a) < end ==> MapReadable(m, NextEntry(m, a), end) && MapClear(m, NextEntry(m, a), end, lo, hi)
  {
  }

  lemma EntriesNone()
    ensures EntriesBytes([]) == []
  {
  }

  lemma EntriesSnoc(rs: seq<Region>, r: Region)
    ensures EntriesBytes(rs + [r]) == EntriesBytes(rs) + EntryBytes(r)
  {
    assert (rs + [r])[..|rs|] == rs;
  }

  lemma EntryBehind(head: seq<Byte>, rs: seq<Region>, r: Region)
    ensures head + EntriesBytes(rs) + EntryBytes(r) == head + EntriesBytes(rs + [r])
  {
    hide EntriesBytes, EntryBytes;
    EntriesSnoc(rs, r);
    assert head + EntriesBytes(rs) + EntryBytes(r) == head + (EntriesBytes(rs) + EntryBytes(r));
  }

  /** There is room behind the cursor for a tag with a payload of n bytes, and one byte more. */
  predicate Room(cur: nat, end: nat, n: nat)
  {
    cur + 16 <= end && Up8(cur) + 8 + n + 1 <= end
  }

  /** The counting pass over the map. */
  method CountEntries(mem: array<Byte>, addr: Word, mapEnd: Word) returns (count: nat)
    requires addr != 0 ==> MapReadable(mem[..], addr, mapEnd)
    ensures count == |MapRegions(mem[..], addr, mapEnd)|
  {
    hide MapReadable, RegionsFrom, NextEntry;
    count := 0;
    var a := addr;
    while a != 0
      invariant a != 0 ==> MapReadable(mem[..], a, mapEnd)
      invariant |MapRegions(mem[..], addr, mapEnd)| == count + (if a == 0 then 0 else |RegionsFrom(mem[..], a, mapEnd)|)
      decreases a != 0, mapEnd - a
    {
      WalkStep(mem[..], a, mapEnd);
      count := count + 1;
      var next := NextEntry(mem[..], a);
      a := if next < mapEnd then next else 0;
    }
  }

  lemma CursorStep(start: nat, tags: seq<Tag>, t: Tag)
    requires start % 8 == 0
    ensures Cursor(start, tags + [t]) == Up8(Cursor(start, tags)) + 8 + |t.payload|
  {
    hide Up8;
    AtOrder(start, tags, 0, 0);
    AtPrefix(start, tags, t, |tags|);
    assert (tags + [t])[|tags|] == t;
  }

  /** Adding tags moves the cursor up. */
  lemma {:induction false} CursorGrows(start: nat, tags: seq<Tag>, more: seq<Tag>)
    requires start % 8 == 0
    ensures Cursor(start, tags) <= Cursor(start, tags + more)
    decreases |more|
  {
    hide Up8;
    if more == [] {
      assert tags + more == tags;
    } else {
      CursorGrows(start, tags + [more[0]], more[1..]);
      assert tags + [more[0]] + more[1..] == tags + more;
      CursorStep(start, tags, more[0]);
      Up8Facts(Cursor(start, tags));
    }
  }

  /** When there is no room for a tag, the finished information would not fit either. */
  lemma NoRoom(start: nat, tags: seq<Tag>, t: Tag, more: seq<Tag>, end: nat)
    requires start % 8 == 0
    requires !Room(Cursor(start, tags), end, |t.payload|)
    ensures Cursor(start, tags + [t] + more) + 16 > end
  {
    hide Up8, Cursor;
    CursorStep(start, tags, t);
    CursorGrows(start, tags + [t], more);
    Up8Facts(Cursor(start, tags));
  }

  ghost predicate Head(m: seq<Byte>, a: nat, cur: nat, kind: Word, size: Word, part: seq<Byte>)
  {
    && cur == a + 8 + |part| && cur <= |m|
    && ReadWord(m, a) == kind && ReadWord(m, a + 4) == size
    && m[a + 8..cur] == part
  }

  lemma HeadIsTag(m: seq<Byte>, a: nat, cur: nat, kind: Word, part: seq<Byte>)
    requires 8 + |part| < 0x1_0000_0000 && Head(m, a, cur, kind, 8 + |part|, part)
    ensures TagAt(m, a, Tag(kind, part))
  {
    hide ReadWord;
  }

  lemma NamedSnoc(tags: seq<Tag>, t: Tag)
    requires Named(tags) && t.kind != 0
    ensures Named(tags + [t])
  {
  }

  lemma HeadWritten(m: seq<Byte>, m': seq<Byte>, start: nat, tags: seq<Tag>, kind: Word, size: Word)
    requires start % 8 == 0 && start + 8 <= Cursor(start, tags)
    requires Laid(m, start, tags) && start + 8 <= |m| && ReadWord(m, start + 4) == 0
    requires Up8(Cursor(start, tags)) + 8 <= |m|
    requires m' == Poke(m, Up8(Cursor(start, tags)), WordBytes(kind) + WordBytes(size))
    ensures Laid(m', start, tags) && ReadWord(m', start + 4) == 0
    ensures Head(m', Up8(Cursor(start, tags)), Up8(Cursor(start, tags)) + 8, kind, size, [])
  {
    hide Laid, Cursor, WordBytes, ReadWord, Up8;
    var a := Up8(Cursor(start, tags));
    var data := WordBytes(kind) + WordBytes(size);
    Up8Facts(Cursor(start, tags));
    PokeFacts(m, a, data);
    LaidKept(m, m', start, tags);
    WordKept(m, m', start + 4);
    assert m'[a..a + 4] == m'[a..a + 8][..4] == WordBytes(kind);
    assert m'[a + 4..a + 8] == m'[a..a + 8][4..] == WordBytes(size);
    ReadBackWord(m', a, kind);
    ReadBackWord(m', a + 4, size);
  }

  lemma PartWritten(m: seq<Byte>, m': seq<Byte>, start: nat, tags: seq<Tag>, cur: nat, kind: Word, size: Word,
                    part: seq<Byte>, data: seq<Byte>)
    requires start % 8 == 0 && start + 8 <= Cursor(start, tags)
    requires Laid(m, start, tags) && start + 8 <= |m| && ReadWord(m, start + 4) == 0
    requires Head(m, Up8(Cursor(start, tags)), cur, kind, size, part)
    requires cur + |data| <= |m| && m' == Poke(m, cur, data)
    ensures Laid(m', start, tags) && ReadWord(m', start + 4) == 0
    ensures Head(m', Up8(Cursor(start, tags)), cur + |data|, kind, size, part + data)
  {
    hide Laid, Cursor, ReadWord, Up8;
    var a := Up8(Cursor(start, tags));
    Up8Facts(Cursor(start, tags));
    PokeFacts(m, cur, data);
    LaidKept(m, m', start, tags);
    WordKept(m, m', start + 4);
    WordKept(m, m', a);
    WordKept(m, m', a + 4);
    SameSlice(m, m', a + 8, cur);
    assert m'[a + 8..cur + |data|] == m'[a + 8..cur] + m'[cur..cur + |data|];
  }

  lemma EndWritten(m: seq<Byte>, m': seq<Byte>, start: nat, cur: nat, tags: seq<Tag>)
    requires start % 8 == 0 && start + 8 <= Cursor(start, tags) <= cur <= |m|
    requires Laid(m, start, tags) && Named(tags) && ReadWord(m, start + 4) == 0
    requires Head(m, Up8(Cursor(start, tags)), cur, TAG_END, 8, [])
    requires ChangedOnly(m, m', start, start + 4) && ReadWord(m', start) == cur - start
    ensures Finished(m', start, tags)
  {
    hide Laid, Cursor, Up8, ReadWord;
    AtOrder(start, tags, 0, 0);
    AtIsPaddedSize(start, tags);
    LaidKept(m, m', start, tags);
    WordKept(m, m', start + 4);
    HeadIsTag(m, Up8(Cursor(start, tags)), cur, TAG_END, []);
    TagKept(m, m', Up8(Cursor(start, tags)), Tag(TAG_END, []));
  }

  /** The entries that are still to be walked over, clear of lo to hi. */
  ghost predicate EntriesLeft(m: seq<Byte>, a: Word, end: Word, lo: nat, hi: nat, left: seq<Region>)
  {
    if a == 0 then left == []
    else MapReadable(m, a, end) && MapClear(m, a, end, lo, hi) && left == RegionsFrom(m, a, end)
  }

  lemma EntriesStart(m: seq<Byte>, addr: Word, mapEnd: Word, lo: nat, hi: nat)
    requires MapSource(m, addr, mapEnd, lo, hi)
    ensures EntriesLeft(m, addr, mapEnd, lo, hi, MapRegions(m, addr, mapEnd))
  {
    hide MapReadable, MapClear, RegionsFrom;
  }

  lemma NoEntriesLeft(m: seq<Byte>, mapEnd: Word, lo: nat, hi: nat, left: seq<Region>)
    requires EntriesLeft(m, 0, mapEnd, lo, hi, left)
    ensures left == []
  {
  }

  /** Walking over one entry. */
  lemma EntriesStep(m: seq<Byte>, a: Word, end: Word, lo: nat, hi: nat, left: seq<Region>)
    requires a != 0 && EntriesLeft(m, a, end, lo, hi, left)
    ensures MapReadable(m, a, end) && MapClear(m, a, end, lo, hi)
    ensures a + 24 <= |m| && a < NextEntry(m, a) < 0x1_0000_0000
    ensures left != [] && left[0] == RegionAt(m, a)
    ensures EntriesLeft(m, if NextEntry(m, a) < end then NextEntry(m, a) else 0, end, lo, hi, left[1..])
  {
    hide MapReadable, MapClear, RegionsFrom, NextEntry, RegionAt;
    WalkStep(m, a, end);
    ClearStep(m, a, end, lo, hi);
  }

  class Builder {
    var start: Word
    var cur: Word
    var end: Word
    ghost var tags: seq<Tag>

    constructor (start: Word, end: Word)
      ensures this.start == start && this.cur == start && this.end == end && this.tags == []
    {
      this.start, this.cur, this.end, this.tags := start, start, end, [];
    }

    /** The tags are in memory between start and cur. */
    ghost predicate Valid(m: seq<Byte>)
      reads this
    {
      && start % 8 == 0 && start + 8 <= cur <= end <= |m|
      && cur == Cursor(start, tags)
      && Laid(m, start, tags)
      && Named(tags)
      && ReadWord(m, start + 4) == 0
    }

    /** A tag has been begun behind the others: its header declares the size, part of its payload is there. */
    ghost predicate Writing(m: seq<Byte>, kind: Word, size: Word, part: seq<Byte>)
      reads this
    {
      && start % 8 == 0 && start + 8 <= Cursor(start, tags) && start + 8 <= cur <= end <= |m|
      && Laid(m, start, tags)
      && Named(tags)
      && ReadWord(m, start + 4) == 0
      && Head(m, Up8(Cursor(start, tags)), cur, kind, size, part)
    }

    /** Copy the data behind the cursor, aligned. No space stops the machine. */
    method AddBlob(mem: array<Byte>, align: Word, data: seq<Byte>) returns (ok: bool)
      requires cur <= end <= mem.Length
      requires align == 1 || align == 8
      requires |data| + align < 0x1_0000_0000
      modifies mem, `cur
      ensures ok == (old(cur) + |data| + align <= end)
      ensures !ok ==> cur == old(cur) && mem[..] == old(mem[..])
      ensures ok ==> old(cur) <= cur <= end
      ensures ok ==> var at := if align == 8 then Up8(old(cur)) else old(cur);
                     cur == at + |data| && mem[..] == Poke(old(mem[..]), at, data)
    {
      ok := |data| + align <= end - cur;
      if !ok {
        return;
      }
      Up8Facts(cur);
      var misaligned := cur % align;
      var needed := if misaligned == 0 then 0 else align - misaligned;
      cur := cur + needed;
      StoreBytes(mem, cur, data);
      cur := cur + |data|;
    }

    /** Write the header of the information, to be completed at the end. */
    method BeginInfo(mem: array<Byte>) returns (ok: bool)
      requires start % 8 == 0 && cur == start <= end <= mem.Length && tags == []
      modifies mem, `cur
      ensures ok == (start + 16 <= end)
      ensures ok ==> Valid(mem[..]) && tags == []
      ensures if ok then ChangedOnly(old(mem[..]), mem[..], start, end) else mem[..] == old(mem[..])
    {
      hide WordBytes, ReadWord, Up8;
      Up8Facts(start);
      ok := AddBlob(mem, 8, WordBytes(0) + WordBytes(0));
      if ok {
        SliceOfSlice(mem[..], start, start + 8, 4, 8);
        assert (WordBytes(0) + WordBytes(0))[4..8] == WordBytes(0);
        ReadBackWord(mem[..], start + 4, 0);
      }
    }

    /** What a valid builder is about to write to. */
    lemma Opened(m: seq<Byte>)
      requires Valid(m)
      ensures start % 8 == 0 && start + 8 <= cur <= end <= |m|
      ensures cur == Cursor(start, tags)
      ensures cur <= Up8(cur)
    {
      Up8Facts(cur);
    }

    /** Write the header of a tag. */
    method BeginTag(mem: array<Byte>, kind: Word, size: Word) returns (ok: bool)
      requires Valid(mem[..])
      modifies mem, `cur
      ensures ok == (old(cur) + 16 <= end)
      ensures ok ==> Writing(mem[..], kind, size, [])
      ensures ChangedOnly(old(mem[..]), mem[..], old(cur), end)
    {
      hide WordBytes, ReadWord, Laid, Cursor, Up8, Poke, Head;
      ghost var m0 := mem[..];
      Opened(m0);
      Up8Facts(cur);
      ok := AddBlob(mem, 8, WordBytes(kind) + WordBytes(size));
      if ok {
        HeadWritten(m0, mem[..], start, tags, kind, size);
        PokeFacts(m0, Up8(old(cur)), WordBytes(kind) + WordBytes(size));
      }
    }

    /** Write the next part of the payload of the tag that was begun. */
    method AddPart(mem: array<Byte>, ghost kind: Word, ghost size: Word, ghost part: seq<Byte>, data: seq<Byte>)
      returns (ok: bool)
      requires |data| + 1 < 0x1_0000_0000
      requires Writing(mem[..], kind, size, part)
      modifies mem, `cur
      ensures ok == (old(cur) + |data| + 1 <= end)
      ensures ok ==> cur == old(cur) + |data| && Writing(mem[..], kind, size, part + data)
      ensures ChangedOnly(old(mem[..]), mem[..], old(cur), end)
    {
      hide ReadWord, Laid, Cursor, Up8, Poke, Head;
      ghost var m0 := mem[..];
      Up8Facts(Cursor(start, tags));
      ok := AddBlob(mem, 1, data);
      if ok {
        PokeFacts(m0, old(cur), data);
        PartWritten(m0, mem[..], start, tags, old(cur), kind, size, part, data);
      }
    }

    /** The payload is as long as declared: the tag is complete. */
    ghost method EndTag(m: seq<Byte>, kind: Word, part: seq<Byte>)
      requires kind != 0
      requires 8 + |part| < 0x1_0000_0000 && Writing(m, kind, 8 + |part|, part)
      modifies `tags
      ensures Valid(m)
      ensures tags == old(tags) + [Tag(kind, part)]
      ensures cur == Up8(Cursor(start, old(tags))) + 8 + |part|
    {
      hide Laid, Cursor, Up8, ReadWord;
      Up8Facts(Cursor(start, tags));
      HeadIsTag(m, Up8(Cursor(start, tags)), cur, kind, part);
      LaidSnoc(m, start, tags, Tag(kind, part));
      NamedSnoc(tags, Tag(kind, part));
      tags := tags + [Tag(kind, part)];
    }

    lemma Begun(m: seq<Byte>, kind: Word, size: Word, part: seq<Byte>)
      requires Writing(m, kind, size, part)
      ensures start + 8 <= cur <= end <= |m|
      ensures cur == Up8(Cursor(start, tags)) + 8 + |part|
    {
    }

    /** Add the string at text as boot command line. */
    method AddBootCmdline(mem: array<Byte>, text: Word) returns (ok: bool)
      requires Valid(mem[..])
      requires Source(mem[..], text, start, end)
      modifies mem, this`cur, this`tags
      ensures Source(old(mem[..]), text, start, end)
      ensures ok == Room(old(cur), end, StrLen(old(mem[..]), text) + 1)
      ensures ok ==> Valid(mem[..]) && tags == old(tags) + [Tag(TAG_CMDLINE, CString(old(mem[..]), text))]
      ensures ChangedOnly(old(mem[..]), mem[..], old(cur), end)
    {
      hide Valid, Writing, Cursor, Up8, StrLen, Terminated, CString;
      ghost var m0 := mem[..];
      Opened(m0);
      var n := StrLenOf(mem, text);
      var len := n + 1;
      ok := BeginTag(mem, TAG_CMDLINE, 8 + len);
      if !ok {
        return;
      }
      Begun(mem[..], TAG_CMDLINE, 8 + len, []);
      SourceKept(m0, mem[..], text, start, end);
      ok := AddPart(mem, TAG_CMDLINE, 8 + len, [], mem[..][text..text + len]);
      if ok {
        assert [] + CString(m0, text) == CString(m0, text);
        EndTag(mem[..], TAG_CMDLINE, CString(m0, text));
      }
    }

    /** Add a module: its bounds, truncated to 32 bits, and the string at text. */
    method AddModule(mem: array<Byte>, modAddr: Quad, modEnd: Quad, text: Word) returns (ok: bool)
      requires Valid(mem[..])
      requires Source(mem[..], text, start, end)
      modifies mem, this`cur, this`tags
      ensures Source(old(mem[..]), text, start, end)
      ensures ok == Room(old(cur), end, 8 + StrLen(old(mem[..]), text) + 1)
      ensures ok ==> Valid(mem[..])
      ensures ok ==>
                tags == old(tags) + [ModuleTag(Wrap(modAddr), Wrap(modEnd), CString(old(mem[..]), text))]
      ensures ChangedOnly(old(mem[..]), mem[..], old(cur), end)
    {
      hide Valid, Writing, Cursor, Up8, StrLen, Terminated, CString, WordBytes, Wrap, ChangedOnly;
      ghost var m0 := mem[..];
      Opened(m0);
      var n := StrLenOf(mem, text);
      var len := n + 1;
      var bounds := WordBytes(Wrap(modAddr)) + WordBytes(Wrap(modEnd));
      ok := BeginTag(mem, TAG_MODULE, 16 + len);
      if !ok {
        return;
      }
      Begun(mem[..], TAG_MODULE, 16 + len, []);
      ghost var m1, c1 := mem[..], cur;
      ok := AddPart(mem, TAG_MODULE, 16 + len, [], bounds);
      ghost var m2, c2 := mem[..], cur;
      ChangedThen(m0, m1, m2, old(cur), c1, end);
      if !ok {
        return;
      }
      assert [] + bounds == bounds;
      ChangedWiden(m0, m2, old(cur), start, end);
      SourceKept(m0, mem[..], text, start, end);
      ok := AddPart(mem, TAG_MODULE, 16 + len, bounds, mem[..][text..text + len]);
      ChangedThen(m0, m2, mem[..], old(cur), c2, end);
      if ok {
        EndTag(mem[..], TAG_MODULE, bounds + CString(m0, text));
      }
    }

    /** Add the root pointer of the ACPI tables at address a. */
    method AddRsdp(mem: array<Byte>, a: Word) returns (ok: bool)
      requires Valid(mem[..])
      requires RsdpSource(mem[..], a, start, end)
      modifies mem, this`cur, this`tags
      ensures RsdpSource(old(mem[..]), a, start, end)
      ensures ok == Room(old(cur), end, RsdpLength(old(mem[..]), a))
      ensures ok ==> Valid(mem[..]) && tags == old(tags) + [RsdpTag(old(mem[..]), a)]
      ensures ChangedOnly(old(mem[..]), mem[..], old(cur), end)
    {
      hide Valid, Writing, Cursor, Up8, ReadWord, ChangedOnly, RsdpSource, RsdpLength, RsdpTag, Disjunct;
      ghost var m0 := mem[..];
      Opened(m0);
      RsdpFacts(m0, a, start, end);
      var len := if mem[a + 15] <= 1 then 20 else ReadWord(mem[..], a + 20);
      var kind := if mem[a + 15] == 1 then TAG_RSDP_V1 else TAG_RSDP_V2;
      ok := BeginTag(mem, kind, 8 + len);
      if !ok {
        return;
      }
      Begun(mem[..], kind, 8 + len, []);
      ghost var m1, c1 := mem[..], cur;
      SliceKept(m0, m1, a, a + len, old(cur), end, start);
      ok := AddPart(mem, kind, 8 + len, [], mem[..][a..a + len]);
      ChangedThen(m0, m1, mem[..], old(cur), c1, end);
      if ok {
        assert [] + m0[a..a + len] == m0[a..a + len];
        EndTag(mem[..], kind, m0[a..a + len]);
      }
    }

    /** One entry, and the address of the next one. */
    method AddEntry(mem: array<Byte>, a: nat, mapEnd: Word, ghost size: Word, ghost part: seq<Byte>,
                    ghost m0: seq<Byte>)
      returns (ok: bool, next: Word)
      requires Writing(mem[..], TAG_MEMORY, size, part)
      requires MapReadable(m0, a, mapEnd) && MapClear(m0, a, mapEnd, start, end)
      requires ChangedOnly(m0, mem[..], start, end)
      modifies mem, `cur
      ensures ok == (old(cur) + 25 <= end)
      ensures ok ==> cur == old(cur) + 24 && Writing(mem[..], TAG_MEMORY, size, part + EntryBytes(RegionAt(m0, a)))
      ensures ChangedOnly(old(mem[..]), mem[..], old(cur), end)
      ensures next == if NextEntry(m0, a) < mapEnd then NextEntry(m0, a) else 0
    {
      hide Writing, EntryBytes, RegionsFrom, MapClear, NextEntry, RegionAt;
      WalkStep(m0, a, mapEnd);
      MapKept(m0, mem[..], a, mapEnd, start, end);
      var r := RegionAt(mem[..], a);
      next := NextEntry(mem[..], a);
      next := if next < mapEnd then next else 0;
      ok := AddPart(mem, TAG_MEMORY, size, part, EntryBytes(r));
    }

    /** The emitting pass over the map. */
    method AddEntries(mem: array<Byte>, addr: Word, mapEnd: Word, ghost size: Word, ghost head: seq<Byte>,
                      ghost m0: seq<Byte>)
      returns (ok: bool)
      requires Writing(mem[..], TAG_MEMORY, size, head)
      requires MapSource(m0, addr, mapEnd, start, end) && ChangedOnly(m0, mem[..], start, end)
      requires start <= cur < end
      modifies mem, `cur
      ensures ok == (old(cur) + 24 * |MapRegions(m0, addr, mapEnd)| + 1 <= end)
      ensures ok ==> Writing(mem[..], TAG_MEMORY, size, head + EntriesBytes(MapRegions(m0, addr, mapEnd)))
      ensures ok ==> cur == old(cur) + 24 * |MapRegions(m0, addr, mapEnd)|
      ensures ChangedOnly(old(mem[..]), mem[..], old(cur), end)
    {
      hide Valid, Writing, Cursor, Up8, EntryBytes, EntriesBytes, MapReadable, RegionsFrom, MapClear, NextEntry;
      hide RegionAt, ChangedOnly, ReadWord, ReadQuad, WordBytes, EntriesLeft;
      ghost var rs := MapRegions(m0, addr, mapEnd);
      ghost var seen: seq<Region> := [];
      ghost var left := rs;
      ok := true;
      var a := addr;
      EntriesStart(m0, addr, mapEnd, start, end);
      ChangedNothing(mem[..], old(cur), end);
      EntriesNone();
      assert head + [] == head;
      while a != 0
        invariant rs == seen + left
        invariant EntriesLeft(m0, a, mapEnd, start, end, left)
        invariant cur == old(cur) + 24 * |seen|
        invariant ok && start <= cur < end
        invariant Writing(mem[..], TAG_MEMORY, size, head + EntriesBytes(seen))
        invariant ChangedOnly(old(mem[..]), mem[..], old(cur), end) && ChangedOnly(m0, mem[..], start, end)
        decreases a != 0, mapEnd - a
      {
        EntriesStep(m0, a, mapEnd, start, end, left);
        ghost var r := RegionAt(m0, a);
        ghost var part := head + EntriesBytes(seen);
        EntryBehind(head, seen, r);
        ghost var m1, c1 := mem[..], cur;
        ok, a := AddEntry(mem, a, mapEnd, size, part, m0);
        ChangedThen(old(mem[..]), m1, mem[..], old(cur), c1, end);
        ChangedThen(m0, m1, mem[..], start, c1, end);
        if !ok {
          return;
        }
        seen, left := seen + [r], left[1..];
      }
      NoEntriesLeft(m0, mapEnd, start, end, left);
      assert seen == rs;
    }

    /** Add the memory map at addr, counting its entries first; a map at address zero is no map. */
    method AddMemmap(mem: array<Byte>, addr: Word, mapEnd: Word) returns (ok: bool)
      requires Valid(mem[..])
      requires MapSource(mem[..], addr, mapEnd, start, end)
      modifies mem, this`cur, this`tags
      ensures MapSource(old(mem[..]), addr, mapEnd, start, end)
      ensures ok == Room(old(cur), end, 8 + 24 * |MapRegions(old(mem[..]), addr, mapEnd)|)
      ensures ok ==> Valid(mem[..]) && tags == old(tags) + [MemmapTag(MapRegions(old(mem[..]), addr, mapEnd))]
      ensures ChangedOnly(old(mem[..]), mem[..], old(cur), end)
    {
      hide Valid, Writing, Cursor, Up8, WordBytes, EntriesBytes, MapReadable, RegionsFrom, MapClear;
      ghost var m0 := mem[..];
      ghost var rs := MapRegions(m0, addr, mapEnd);
      Opened(m0);
      var count := CountEntries(mem, addr, mapEnd);
      var size := 16 + 24 * count;
      var head := WordBytes(24) + WordBytes(0);
      ok := BeginTag(mem, TAG_MEMORY, size);
      if !ok {
        return;
      }
      Begun(mem[..], TAG_MEMORY, size, []);
      ok := AddPart(mem, TAG_MEMORY, size, [], head);
      if !ok {
        return;
      }
      assert [] + head == head;
      ok := AddEntries(mem, addr, mapEnd, size, head, m0);
      if ok {
        EndTag(mem[..], TAG_MEMORY, head + EntriesBytes(rs));
      }
    }

    lemma BegunParts(m: seq<Byte>, kind: Word, size: Word, part: seq<Byte>)
      requires Writing(m, kind, size, part)
      ensures start % 8 == 0 && start + 8 <= Cursor(start, tags) <= cur <= end <= |m|
      ensures Laid(m, start, tags) && Named(tags) && ReadWord(m, start + 4) == 0
      ensures Head(m, Up8(Cursor(start, tags)), cur, kind, size, part)
    {
      Up8Facts(Cursor(start, tags));
    }

    /** Append the end tag and fill in the total size. The result is the address of the information. */
    method Finish(mem: array<Byte>) returns (ok: bool, info: Word)
      requires Valid(mem[..])
      modifies mem, `cur
      ensures ok == (old(cur) + 16 <= end)
      ensures ok ==> info == start && Finished(mem[..], start, tags)
      ensures ChangedOnly(old(mem[..]), mem[..], start, end)
    {
      hide Valid, Writing, Cursor, Up8, ReadWord;
      ghost var m0 := mem[..];
      Opened(m0);
      info := start;
      ok := BeginTag(mem, TAG_END, 8);
      if !ok {
        return;
      }
      ghost var m1 := mem[..];
      BegunParts(m1, TAG_END, 8, []);
      StoreWord(mem, start, cur - start);
      EndWritten(m1, mem[..], start, cur, tags);
    }
  }

  /** The first tag follows the header of the information; it may be the end tag. */
  function TagFirst(info: nat): nat
  {
    info + 8
  }

  /** The tag behind the one at c, or zero when that is the end tag. */
  function TagNext(m: seq<Byte>, c: nat): nat
    requires c + 8 <= |m| && c + Up8(ReadWord(m, c + 4)) + 4 <= |m|
  {
    var n := c + Up8(ReadWord(m, c + 4));
    if ReadWord(m, n) == 0 then 0 else n
  }

  /** The payload is located directly behind the header. */
  function TagPayload(c: nat): nat
  {
    c + 8
  }

  /** The tag at c as the reader sees it. */
  function ReadTag(m: seq<Byte>, c: nat): Tag
    requires c + 8 <= |m| && 8 <= ReadWord(m, c + 4) && c + ReadWord(m, c + 4) <= |m|
  {
    Tag(ReadWord(m, c), m[TagPayload(c)..c + ReadWord(m, c + 4)])
  }

  /** Start an information in the size bytes from an address. A failed assertion is the result null. */
  method Build(mem: array<Byte>, physAddr: Quad, size: Word) returns (b: Builder?)
    requires physAddr < 0x1_0000_0000 ==> physAddr + size < 0x1_0000_0000 && physAddr + size <= mem.Length
    modifies mem
    ensures b != null <==> physAddr < 0x1_0000_0000 && physAddr % 8 == 0 && size >= 16
    ensures b != null ==> fresh(b) && b.start == physAddr && b.end == physAddr + size
    ensures b != null ==> b.tags == [] && b.Valid(mem[..])
    ensures physAddr < 0x1_0000_0000 ==> ChangedOnly(old(mem[..]), mem[..], physAddr, physAddr + size)
    ensures b == null ==> mem[..] == old(mem[..])
  {
    b := null;
    if physAddr >= 0x1_0000_0000 || physAddr % 8 != 0 {
      return;
    }
    var bld := new Builder(physAddr, physAddr + size);
    var ok := bld.BeginInfo(mem);
    if ok {
      b := bld;
    }
  }

  lemma TagRead(m: seq<Byte>, c: nat, t: Tag)
    requires TagAt(m, c, t)
    ensures ReadWord(m, c + 4) == 8 + |t.payload|
    ensures ReadTag(m, c) == t
  {
    hide ReadWord;
  }

  lemma TagHead(m: seq<Byte>, a: nat, t: Tag)
    requires TagAt(m, a, t)
    ensures a + 8 + |t.payload| <= |m|
    ensures ReadWord(m, a) == t.kind && ReadWord(m, a + 4) == 8 + |t.payload|
    ensures m[a + 8..a + 8 + |t.payload|] == t.payload
  {
    hide ReadWord;
  }

  /** The tag at c can be passed, and the reader goes on at next. */
  ghost predicate GoesTo(m: seq<Byte>, c: nat, next: nat)
  {
    c + 8 <= |m| && c + Up8(ReadWord(m, c + 4)) + 4 <= |m| && TagNext(m, c) == next
  }

  lemma AtNext(start: nat, tags: seq<Tag>, i: nat)
    requires start % 8 == 0 && i < |tags|
    ensures At(start, tags, i + 1) == At(start, tags, i) + Up8(8 + |tags[i].payload|)
  {
    hide Up8;
    AtAligned(start, tags, i);
    Up8Add(At(start, tags, i), 8 + |tags[i].payload|);
  }

  /** From tag i of a finished information the reader goes to tag i + 1, and behind the last one it stops. */
  lemma NextTag(m: seq<Byte>, start: nat, tags: seq<Tag>, i: nat)
    requires Finished(m, start, tags) && i < |tags|
    ensures GoesTo(m, At(start, tags, i), if i + 1 < |tags| then At(start, tags, i + 1) else 0)
    ensures 0 < At(start, tags, i + 1)
  {
    hide TagAt, Up8, ReadWord, PaddedSize, At;
    var c, n := At(start, tags, i), At(start, tags, i + 1);
    AtOrder(start, tags, i, i);
    AtOrder(start, tags, i + 1, i + 1);
    AtIsPaddedSize(start, tags);
    AtNext(start, tags, i);
    assert TagAt(m, c, tags[i]);
    TagHead(m, c, tags[i]);
    if i + 1 < |tags| {
      assert TagAt(m, n, tags[i + 1]);
      TagHead(m, n, tags[i + 1]);
    } else {
      TagHead(m, n, Tag(TAG_END, []));
    }
  }

  lemma FirstTag(m: seq<Byte>, info: nat, tags: seq<Tag>)
    requires Finished(m, info, tags) && tags != []
    ensures TagFirst(info) == At(info, tags, 0)
  {
  }

  lemma LaidOut(m: seq<Byte>, start: nat, tags: seq<Tag>, i: nat)
    requires Finished(m, start, tags) && i < |tags|
    ensures TagAt(m, At(start, tags, i), tags[i])
  {
    hide TagAt, At, ReadWord, Up8;
  }

  /** Walk over the tags of a finished information, as a client does. */
  method ReadTags(mem: array<Byte>, info: Word, ghost tags: seq<Tag>) returns (found: seq<Tag>)
    requires Finished(mem[..], info, tags) && tags != []
    ensures found == tags
  {
    hide At, Up8, ReadWord, Finished, TagNext, ReadTag;
    found := [];
    var c := TagFirst(info);
    FirstTag(mem[..], info, tags);
    while c != 0
      invariant |found| <= |tags| && found == tags[..|found|]
      invariant if c == 0 then |found| == |tags| else |found| < |tags| && c == At(info, tags, |found|)
      decreases |tags| - |found|
    {
      LaidOut(mem[..], info, tags, |found|);
      NextTag(mem[..], info, tags, |found|);
      TagRead(mem[..], c, tags[|found|]);
      found := found + [ReadTag(mem[..], c)];
      c := TagNext(mem[..], c);
    }
  }

  lemma NextUnique(start: nat, xs: seq<Tag>, ys: seq<Tag>, i: nat)
    requires i < |xs| && i < |ys| && At(start, xs, i) == At(start, ys, i) && xs[i] == ys[i]
    ensures At(start, xs, i + 1) == At(start, ys, i + 1)
  {
  }

  /** The tags of a finished information are determined by the memory. */
  lemma {:induction false} TagsUnique(m: seq<Byte>, start: nat, xs: seq<Tag>, ys: seq<Tag>, i: nat)
    requires Finished(m, start, xs) && Finished(m, start, ys)
    requires xs != [] && ys != []
    requires i <= |xs| && i <= |ys| && xs[..i] == ys[..i]
    requires i == 0 || ((i == |xs|) <==> (i == |ys|))
    requires At(start, xs, i) == At(start, ys, i)
    ensures xs == ys
    decreases |xs| - i
  {
    hide At, Up8, ReadWord, Finished, TagNext, ReadTag;
    if i < |xs| && i < |ys| {
      LaidOut(m, start, xs, i);
      LaidOut(m, start, ys, i);
      TagRead(m, At(start, xs, i), xs[i]);
      TagRead(m, At(start, ys, i), ys[i]);
      NextTag(m, start, xs, i);
      NextTag(m, start, ys, i);
      NextUnique(start, xs, ys, i);
      TagsUnique(m, start, xs, ys, i + 1);
    }
  }

  /** Memory holds at most one list of tags. */
  lemma OneReading(m: seq<Byte>, start: nat, xs: seq<Tag>, ys: seq<Tag>)
    requires Finished(m, start, xs) && Finished(m, start, ys)
    requires xs != [] && ys != []
    ensures xs == ys
  {
    hide Finished, Laid, ReadWord;
    TagsUnique(m, start, xs, ys, 0);
  }

  /** A finished information without tags: the first tag the reader sees is the end tag itself. */
  lemma NoTagsReadsEnd(m: seq<Byte>, info: nat)
    requires Finished(m, info, [])
    ensures TagFirst(info) + 8 == info + 16 <= |m|
    ensures TagAt(m, TagFirst(info), Tag(TAG_END, []))
  {
  }

  /** The reader's first tag is the end tag, which it does not check, if and only if there are no tags. */
  lemma FirstTagIsEnd(m: seq<Byte>, info: nat, tags: seq<Tag>)
    requires Finished(m, info, tags)
    ensures ReadWord(m, TagFirst(info)) == TAG_END <==> tags == []
  {
    hide TagAt, ReadWord;
    if tags == [] {
      NoTagsReadsEnd(m, info);
      TagHead(m, TagFirst(info), Tag(TAG_END, []));
    } else {
      FirstTag(m, info, tags);
      LaidOut(m, info, tags, 0);
      TagHead(m, TagFirst(info), tags[0]);
    }
  }

  /** The first entry of the memory map tag at c; it may be the end of the tag. */
  function MapFirst(c: nat): nat
  {
    c + 16
  }

  /** The entry behind the one at e, or zero behind the last. */
  function MapNext(m: seq<Byte>, c: nat, e: nat): nat
    requires c + 12 <= |m|
  {
    var next := e + ReadWord(m, c + 8);
    if next < c + ReadWord(m, c + 4) then next else 0
  }

  function ReadEntry(m: seq<Byte>, e: nat): Region
    requires e + 24 <= |m|
  {
    Region(ReadQuad(m, e), ReadQuad(m, e + 8), ReadWord(m, e + 16))
  }

  lemma EntryReadBack(m: seq<Byte>, e: nat, r: Region)
    requires e + 24 <= |m| && m[e..e + 24] == EntryBytes(r)
    ensures ReadEntry(m, e) == r
  {
    hide ReadQuad, ReadWord, QuadBytes, WordBytes;
    var b := EntryBytes(r);
    assert b[0..8] == QuadBytes(r.base) && b[8..16] == QuadBytes(r.len) && b[16..20] == WordBytes(r.kind);
    SliceOfSlice(m, e, e + 24, 0, 8);
    SliceOfSlice(m, e, e + 24, 8, 16);
    SliceOfSlice(m, e, e + 24, 16, 20);
    ReadBackQuad(m, e, r.base);
    ReadBackQuad(m, e + 8, r.len);
    ReadBackWord(m, e + 16, r.kind);
  }

  lemma {:induction false} EntryAt(rs: seq<Region>, i: nat)
    requires i < |rs|
    ensures EntriesBytes(rs)[24 * i..24 * i + 24] == EntryBytes(rs[i])
    decreases |rs|
  {
    hide EntryBytes;
    var init, r := rs[..|rs| - 1], rs[|rs| - 1];
    assert EntriesBytes(rs) == EntriesBytes(init) + EntryBytes(r);
    if i < |init| {
      EntryAt(init, i);
      assert EntriesBytes(rs)[24 * i..24 * i + 24] == EntriesBytes(init)[24 * i..24 * i + 24];
    }
  }

  lemma MemmapPayload(rs: seq<Region>)
    ensures var p := MemmapTag(rs).payload;
            |p| == 8 + 24 * |rs| && p[0..4] == WordBytes(24) && p[8..|p|] == EntriesBytes(rs)
    ensures MemmapTag(rs).kind == TAG_MEMORY
  {
    hide WordBytes, EntriesBytes;
  }

  /** What the payload of the map tag is made of, at its place in memory. */
  lemma PayloadAt(m: seq<Byte>, p: nat, end: nat, s: seq<Byte>, rs: seq<Region>)
    requires p + 8 <= end <= |m| && m[p..end] == s
    requires |s| == 8 + 24 * |rs| && s[0..4] == WordBytes(24) && s[8..|s|] == EntriesBytes(rs)
    ensures ReadWord(m, p) == 24 && m[p + 8..end] == EntriesBytes(rs)
  {
    hide WordBytes, EntriesBytes, ReadWord;
    SliceOfSlice(m, p, end, 0, 4);
    SliceOfSlice(m, p, end, 8, |s|);
    ReadBackWord(m, p, 24);
  }

  /** What the map tag of the regions holds at c. */
  lemma MemmapFields(m: seq<Byte>, c: nat, rs: seq<Region>)
    requires TagAt(m, c, MemmapTag(rs))
    ensures c + 16 + 24 * |rs| <= |m|
    ensures ReadWord(m, c) == TAG_MEMORY && ReadWord(m, c + 4) == 16 + 24 * |rs| && ReadWord(m, c + 8) == 24
    ensures m[c + 16..c + 16 + 24 * |rs|] == EntriesBytes(rs)
  {
    hide TagAt, ReadWord, WordBytes, EntriesBytes, MemmapTag;
    TagHead(m, c, MemmapTag(rs));
    MemmapPayload(rs);
    PayloadAt(m, c + 8, c + 16 + 24 * |rs|, MemmapTag(rs).payload, rs);
  }

  /** The first entry lies inside the tag if and only if there is one; without entries it is the end of the tag. */
  lemma FirstEntryInside(m: seq<Byte>, c: nat, rs: seq<Region>)
    requires TagAt(m, c, MemmapTag(rs))
    ensures c + 8 <= |m|
    ensures MapFirst(c) < c + ReadWord(m, c + 4) <==> rs != []
    ensures rs == [] ==> MapFirst(c) == c + ReadWord(m, c + 4)
  {
    hide TagAt, ReadWord, MemmapTag;
    MemmapFields(m, c, rs);
  }

  /** Entry i of a map tag is region i, and the reader goes on to the next one, or stops. */
  lemma EntryOfTag(m: seq<Byte>, c: nat, rs: seq<Region>, i: nat)
    requires TagAt(m, c, MemmapTag(rs)) && i < |rs|
    ensures c + 16 + 24 * i + 24 <= |m|
    ensures ReadEntry(m, c + 16 + 24 * i) == rs[i]
    ensures MapNext(m, c, c + 16 + 24 * i) == if i + 1 < |rs| then c + 16 + 24 * (i + 1) else 0
  {
    hide ReadWord, ReadEntry, EntryBytes, EntriesBytes, TagAt, MemmapTag;
    MemmapFields(m, c, rs);
    EntryAt(rs, i);
    SliceOfSlice(m, c + 16, c + 16 + 24 * |rs|, 24 * i, 24 * i + 24);
    EntryReadBack(m, c + 16 + 24 * i, rs[i]);
  }

  /** Walk over the entries of a memory map tag, as a client does. */
  method ReadMap(mem: array<Byte>, c: Word, ghost rs: seq<Region>) returns (found: seq<Region>)
    requires TagAt(mem[..], c, MemmapTag(rs)) && rs != []
    ensures found == rs
  {
    hide TagAt, ReadEntry, MapNext, MemmapTag;
    found := [];
    var e := MapFirst(c);
    while e != 0
      invariant |found| <= |rs| && found == rs[..|found|]
      invariant if e == 0 then |found| == |rs| else |found| < |rs| && e == c + 16 + 24 * |found|
      decreases |rs| - |found|
    {
      EntryOfTag(mem[..], c, rs, |found|);
      found := found + [ReadEntry(mem[..], e)];
      e := MapNext(mem[..], c, e);
    }
  }

  /** What a reader finds in a command line tag at c: kind 1, its size, the string. */
  lemma CmdlineFields(m: seq<Byte>, c: nat, text: seq<Byte>)
    requires TagAt(m, c, Tag(TAG_CMDLINE, text))
    ensures c + 8 + |text| <= |m| && ReadWord(m, c) == 1 && ReadWord(m, c + 4) == 8 + |text|
    ensures m[c + 8..c + 8 + |text|] == text
  {
    hide ReadWord;
  }

  /** What a reader finds in a module tag at c: kind 3, its size, start, end, string. */
  lemma ModuleFields(m: seq<Byte>, c: nat, start: Word, end: Word, text: seq<Byte>)
    requires TagAt(m, c, ModuleTag(start, end, text))
    ensures c + 16 + |text| <= |m| && ReadWord(m, c) == 3 && ReadWord(m, c + 4) == 16 + |text|
    ensures ReadWord(m, c + 8) == start && ReadWord(m, c + 12) == end
    ensures m[c + 16..c + 16 + |text|] == text
  {
    hide ReadWord, WordBytes;
    var x, y := WordBytes(start), WordBytes(end);
    assert ModuleTag(start, end, text).payload == [] + x + (y + text) == x + y + text == (x + y) + text + [];
    FieldAt(m, c + 8, [], x, y + text);
    FieldAt(m, c + 8, x, y, text);
    FieldAt(m, c + 8, x + y, text, []);
    ReadBackWord(m, c + 8, start);
    ReadBackWord(m, c + 12, end);
  }

  /**
   * What a reader finds in a memory map tag at c: kind 6, its size, the entry size 24, and entry i
   * with base, length and kind 24 * i bytes behind the first.
   */
  lemma EntryFields(m: seq<Byte>, c: nat, rs: seq<Region>, i: nat)
    requires TagAt(m, c, MemmapTag(rs)) && i < |rs|
    ensures var e := c + 16 + 24 * i;
            && e + 24 <= |m| && ReadWord(m, c) == 6 && ReadWord(m, c + 4) == 16 + 24 * |rs| && ReadWord(m, c + 8) == 24
            && ReadQuad(m, e) == rs[i].base && ReadQuad(m, e + 8) == rs[i].len && ReadWord(m, e + 16) == rs[i].kind
  {
    hide TagAt, MemmapTag, ReadWord, ReadQuad;
    MemmapFields(m, c, rs);
    EntryOfTag(m, c, rs, i);
  }

  /**
   * What a reader finds in the tag of the root pointer at a in m0: kind 14 for revision 1, else 15,
   * and 20 bytes for revisions 0 and 1, else as many as the length at offset 20 says.
   */
  lemma RsdpFields(m: seq<Byte>, c: nat, m0: seq<Byte>, a: nat)
    requires a + 36 <= |m0| && a + RsdpLength(m0, a) <= |m0| && TagAt(m, c, RsdpTag(m0, a))
    ensures var n := ReadWord(m, c + 4) - 8;
            && ReadWord(m, c) == (if m0[a + 15] == 1 then 14 else 15)
            && n == (if m0[a + 15] == 0 || m0[a + 15] == 1 then 20 else ReadWord(m0, a + 20))
            && a + n <= |m0| && c + 8 + n <= |m| && m[c + 8..c + 8 + n] == m0[a..a + n]
  {
    hide ReadWord;
  }

  /** What a reader finds behind the last tag: kind 0 and size 8. */
  lemma EndFields(m: seq<Byte>, info: nat, tags: seq<Tag>)
    requires Finished(m, info, tags)
    ensures var total := ReadWord(m, info);
            && info + total <= |m| && ReadWord(m, info + total - 8) == 0 && ReadWord(m, info + total - 4) == 8
  {
    hide ReadWord, Laid, PaddedSize;
  }

  const MBI2_HEADER_MAGIC: Word := 0xE85250D6

  /** A Multiboot 2 header: the magic number, and four words that add up to zero. */
  predicate HeaderAt(m: seq<Byte>, a: nat)
    requires a + 16 <= |m|
  {
    && ReadWord(m, a) == MBI2_HEADER_MAGIC
    && Wrap(ReadWord(m, a) as int + ReadWord(m, a + 4) + ReadWord(m, a + 8) + ReadWord(m, a + 12)) == 0
  }

  /** Eight-byte step k from start is a header that ends at or below end. */
  ghost predicate HeaderStep(m: seq<Byte>, start: nat, end: nat, k: nat)
    requires end <= |m|
  {
    start + 8 * k + 16 <= end && HeaderAt(m, start + 8 * k)
  }

  ghost predicate HasHeader(m: seq<Byte>, start: nat, end: nat)
    requires end <= |m|
  {
    exists k: nat :: HeaderStep(m, start, end, k)
  }

  ghost predicate FirstHeader(m: seq<Byte>, start: nat, end: nat, k: nat)
    requires end <= |m|
  {
    HeaderStep(m, start, end, k) && forall j: nat :: j < k ==> !HeaderStep(m, start, end, j)
  }

  lemma MagicBytes(m: seq<Byte>, a: nat)
    requires a + 4 <= |m|
    ensures ReadWord(m, a) == MBI2_HEADER_MAGIC
       <==> m[a] == 0xD6 && m[a + 1] == 0x50 && m[a + 2] == 0x52 && m[a + 3] == 0xE8
  {
    hide ReadWord;
    ByteOrder(m, a);
  }

  /** A header, byte by byte: the magic number, and four words that add up to zero. */
  ghost predicate HeaderBytes(m: seq<Byte>, end: nat, a: nat)
    requires end <= |m|
  {
    && a + 16 <= end
    && m[a] == 0xD6 && m[a + 1] == 0x50 && m[a + 2] == 0x52 && m[a + 3] == 0xE8
    && (ReadWord(m, a) as int + ReadWord(m, a + 4) + ReadWord(m, a + 8) + ReadWord(m, a + 12)) % 0x1_0000_0000 == 0
  }

  lemma HeaderStepMeans(m: seq<Byte>, start: nat, end: nat, k: nat)
    requires end <= |m|
    ensures HeaderStep(m, start, end, k) <==> HeaderBytes(m, end, start + 8 * k)
  {
    hide ReadWord;
    if start + 8 * k + 16 <= end {
      MagicBytes(m, start + 8 * k);
    }
  }

  /** There is a header when there is one at some multiple of eight bytes. */
  lemma HeaderMeans(m: seq<Byte>, start: nat, end: nat)
    requires end <= |m|
    ensures HasHeader(m, start, end) <==> exists a :: start <= a && (a - start) % 8 == 0 && HeaderBytes(m, end, a)
  {
    hide HeaderStep, HeaderBytes;
    if HasHeader(m, start, end) {
      var k: nat :| HeaderStep(m, start, end, k);
      HeaderStepMeans(m, start, end, k);
      ModUnique(8 * k, 8, k, 0);
      assert HeaderBytes(m, end, start + 8 * k);
    }
    if a :| start <= a && (a - start) % 8 == 0 && HeaderBytes(m, end, a) {
      HeaderStepMeans(m, start, end, (a - start) / 8);
    }
  }

  /** Search for a header at every eight bytes. */
  method FindHeader(mem: array<Byte>, start: nat, len: nat) returns (found: bool, at: nat)
    requires start + len < 0x1_0000_0000 && start + len <= mem.Length
    ensures found == HasHeader(mem[..], start, start + len)
    ensures found ==> exists k: nat :: at == start + 8 * k && FirstHeader(mem[..], start, start + len, k)
  {
    hide HeaderAt;
    found, at := false, start;
    var end := start + len;
    ghost var k: nat := 0;
    while at + 16 <= end
      invariant at == start + 8 * k
      invariant forall j: nat :: j < k ==> !HeaderStep(mem[..], start, end, j)
    {
      if HeaderAt(mem[..], at) {
        assert HeaderStep(mem[..], start, end, k);
        assert FirstHeader(mem[..], start, end, k);
        found := true;
        return;
      }
      at, k := at + 8, k + 1;
    }
  }

  lemma HeaderAtMoves(m: seq<Byte>, base: nat, img: seq<Byte>, a: nat)
    requires base + |img| <= |m| && m[base..base + |img|] == img && a + 16 <= |img|
    ensures HeaderAt(m, base + a) <==> HeaderAt(img, a)
  {
    hide ReadWord;
    WordMoves(m, base, img, a);
    WordMoves(m, base, img, a + 4);
    WordMoves(m, base, img, a + 8);
    WordMoves(m, base, img, a + 12);
  }

  /** A header is found in an image wherever the image lies. */
  lemma HeaderMoves(m: seq<Byte>, base: nat, img: seq<Byte>)
    requires base + |img| <= |m| && m[base..base + |img|] == img
    ensures HasHeader(m, base, base + |img|) <==> HasHeader(img, 0, |img|)
  {
    hide HeaderAt;
    if HasHeader(m, base, base + |img|) {
      var k: nat :| HeaderStep(m, base, base + |img|, k);
      HeaderAtMoves(m, base, img, 8 * k);
      assert HeaderStep(img, 0, |img|, k);
    }
    if HasHeader(img, 0, |img|) {
      var k: nat :| HeaderStep(img, 0, |img|, k);
      HeaderAtMoves(m, base, img, 8 * k);
      assert HeaderStep(m, base, base + |img|, k);
    }
  }
}

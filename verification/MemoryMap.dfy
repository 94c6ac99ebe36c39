/**
 * The Multiboot memory map and the search for free memory in it
 * (standalone/include/mbi.h, standalone/mbi.c).
 */
module MemoryMap {
  import opened Bits
  import opened HalfWords
  import opened Memory

  /** The fields of the Multiboot information that the loader uses. */
  datatype Fields = Fields(flags: Word, cmdline: Word, modsCount: Word, modsAddr: Word, mmapLength: Word,
                           mmapAddr: Word)

  /** The Multiboot information that the loader reads and updates. */
  class Mbi {
    var flags: Word
    var cmdline: Word
    var modsCount: Word
    var modsAddr: Word
    var mmapLength: Word
    var mmapAddr: Word

    constructor (flags: Word, cmdline: Word, modsCount: Word, modsAddr: Word, mmapLength: Word, mmapAddr: Word)
      ensures this.flags == flags && this.cmdline == cmdline && this.modsCount == modsCount
      ensures this.modsAddr == modsAddr && this.mmapLength == mmapLength && this.mmapAddr == mmapAddr
    {
      this.flags, this.cmdline, this.modsCount := flags, cmdline, modsCount;
      this.modsAddr, this.mmapLength, this.mmapAddr := modsAddr, mmapLength, mmapAddr;
    }

    function Get(): Fields
      reads this
    {
      Fields(flags, cmdline, modsCount, modsAddr, mmapLength, mmapAddr)
    }
  }

  /** One entry of the memory map. */
  datatype Region = Region(base: Quad, len: Quad, kind: Word)

  function RegionAt(m: seq<Byte>, a: nat): Region
    requires a + 24 <= |m|
  {
    Region(ReadQuad(m, a + 4), ReadQuad(m, a + 12), ReadWord(m, a + 20))
  }

  /** The address of the entry behind the one at a: the size field does not count itself. */
  function NextEntry(m: seq<Byte>, a: nat): nat
    requires a + 4 <= |m|
  {
    a + ReadWord(m, a) + 4
  }

  /** Walking the map from a to end stays in memory and does not wrap around. */
  predicate MapReadable(m: seq<Byte>, a: nat, end: nat)
    decreases end - a
  {
    && a + 24 <= |m|
    && NextEntry(m, a) < 0x1_0000_0000
    && (NextEntry(m, a) < end ==> MapReadable(m, NextEntry(m, a), end))
  }

  /** The entries of the map from a to end. There is always a first one, whatever the end. */
  function RegionsFrom(m: seq<Byte>, a: nat, end: nat): (r: seq<Region>)
    requires MapReadable(m, a, end)
    ensures r != []
    decreases end - a
  {
    var next := NextEntry(m, a);
    [RegionAt(m, a)] + (if next < end then RegionsFrom(m, next, end) else [])
  }

  /** The end address of the map, in 32 bits. */
  function MapEnd(addr: Word, length: Word): Word
  {
    Wrap(addr as int + length)
  }

  predicate MapOk(m: seq<Byte>, addr: Word, length: Word)
  {
    addr != 0 ==> MapReadable(m, addr, MapEnd(addr, length))
  }

  /** The entries of the map from addr to mapEnd; a map at address zero is no map. */
  function MapRegions(m: seq<Byte>, addr: Word, mapEnd: Word): seq<Region>
    requires addr != 0 ==> MapReadable(m, addr, mapEnd)
  {
    if addr == 0 then [] else RegionsFrom(m, addr, mapEnd)
  }

  /** All entries of the map of the given length. */
  function Regions(m: seq<Byte>, addr: Word, length: Word): seq<Region>
    requires MapOk(m, addr, length)
  {
    MapRegions(m, addr, MapEnd(addr, length))
  }

  /** The address of entry i. */
  function EntryAddress(m: seq<Byte>, a: nat, end: nat, i: nat): nat
    requires MapReadable(m, a, end) && i < |RegionsFrom(m, a, end)|
    decreases i
  {
    if i == 0 then a else EntryAddress(m, NextEntry(m, a), end, i - 1)
  }

  /** Entry i is read from its address, and there is another one exactly when it would start before the end. */
  lemma {:induction false} RegionsAreTheWalk(m: seq<Byte>, a: nat, end: nat, i: nat)
    requires MapReadable(m, a, end) && i < |RegionsFrom(m, a, end)|
    ensures var e := EntryAddress(m, a, end, i);
            && e + 24 <= |m| && RegionsFrom(m, a, end)[i] == RegionAt(m, e)
            && (i + 1 < |RegionsFrom(m, a, end)| <==> NextEntry(m, e) < end)
            && (i + 1 < |RegionsFrom(m, a, end)| ==> EntryAddress(m, a, end, i + 1) == NextEntry(m, e))
    decreases i
  {
    hide NextEntry, RegionAt;
    if i > 0 {
      RegionsAreTheWalk(m, NextEntry(m, a), end, i - 1);
    }
  }

  /** A map entry as it lies in memory: its size, which does not count itself, the region, and padding. */
  function EntryOf(r: Region, pad: seq<Byte>): (b: seq<Byte>)
    requires 20 + |pad| < 0x1_0000_0000
    ensures |b| == 24 + |pad|
  {
    WordBytes(20 + |pad|) + QuadBytes(r.base) + QuadBytes(r.len) + WordBytes(r.kind) + pad
  }

  ghost predicate Padding(rs: seq<Region>, pads: seq<seq<Byte>>)
  {
    |pads| == |rs| && forall i :: 0 <= i < |pads| ==> 20 + |pads[i]| < 0x1_0000_0000
  }

  /** A whole map as it lies in memory. */
  function MapBytes(rs: seq<Region>, pads: seq<seq<Byte>>): (b: seq<Byte>)
    requires Padding(rs, pads)
  {
    if rs == [] then [] else EntryOf(rs[0], pads[0]) + MapBytes(rs[1..], pads[1..])
  }

  lemma EntryReadBack(m: seq<Byte>, a: nat, r: Region, pad: seq<Byte>)
    requires 20 + |pad| < 0x1_0000_0000 && a + 24 + |pad| <= |m|
    requires m[a..a + 24 + |pad|] == EntryOf(r, pad)
    ensures RegionAt(m, a) == r && NextEntry(m, a) == a + 24 + |pad|
  {
    hide WordBytes, QuadBytes, ReadWord, ReadQuad;
    var e := EntryOf(r, pad);
    var size, base, len, kind := WordBytes(20 + |pad|), QuadBytes(r.base), QuadBytes(r.len), WordBytes(r.kind);
    assert e == [] + size + (base + len + kind + pad) == size + base + (len + kind + pad);
    assert e == (size + base) + len + (kind + pad) == (size + base + len) + kind + pad;
    FieldAt(m, a, [], size, base + len + kind + pad);
    FieldAt(m, a, size, base, len + kind + pad);
    FieldAt(m, a, size + base, len, kind + pad);
    FieldAt(m, a, size + base + len, kind, pad);
    ReadBackWord(m, a, 20 + |pad|);
    ReadBackQuad(m, a + 4, r.base);
    ReadBackQuad(m, a + 12, r.len);
    ReadBackWord(m, a + 20, r.kind);
  }

  lemma {:induction false} EntriesReadBack(m: seq<Byte>, a: nat, b: seq<Byte>, rs: seq<Region>, pads: seq<seq<Byte>>)
    requires rs != [] && Padding(rs, pads) && b == MapBytes(rs, pads)
    requires a + |b| <= |m| && a + |b| < 0x1_0000_0000 && m[a..a + |b|] == b
    ensures MapReadable(m, a, a + |b|) && RegionsFrom(m, a, a + |b|) == rs
    decreases |rs|
  {
    hide EntryOf, NextEntry, RegionAt;
    var n := 24 + |pads[0]|;
    var rest := MapBytes(rs[1..], pads[1..]);
    assert b == EntryOf(rs[0], pads[0]) + rest && |b| == n + |rest|;
    assert m[a..a + n] == m[a..a + |b|][..n] == EntryOf(rs[0], pads[0]);
    assert m[a + n..a + n + |rest|] == m[a..a + |b|][n..] == rest;
    EntryReadBack(m, a, rs[0], pads[0]);
    assert rs == [rs[0]] + rs[1..];
    if |rs| > 1 {
      EntriesReadBack(m, a + n, rest, rs[1..], pads[1..]);
    }
  }

  /** A map that lies in memory as its entries say is read back as these entries. */
  lemma MapReadBack(m: seq<Byte>, addr: Word, rs: seq<Region>, pads: seq<seq<Byte>>)
    requires addr != 0 && rs != [] && Padding(rs, pads)
    requires var n := |MapBytes(rs, pads)|;
             addr + n <= |m| && addr + n < 0x1_0000_0000 && m[addr..addr + n] == MapBytes(rs, pads)
    ensures MapOk(m, addr, |MapBytes(rs, pads)|) && Regions(m, addr, |MapBytes(rs, pads)|) == rs
  {
    hide MapReadable, RegionsFrom, MapBytes;
    EntriesReadBack(m, addr, MapBytes(rs, pads), rs, pads);
    WrapBelow(addr as int + |MapBytes(rs, pads)|);
  }

  /** The addresses of a region do not wrap around, even rounded up to a page. */
  ghost predicate InRange(r: Region)
  {
    r.base + 0xFFF < 0x1_0000_0000_0000_0000 && r.base + r.len < 0x1_0000_0000_0000_0000
  }

  /** Round down to a page, x & ~0xFFF in 64 bits. */
  function PageDown(x: int): int
  {
    x - x % 0x1000
  }

  function PageUp(x: int): int
  {
    PageDown(x + 0xFFF)
  }

  lemma PageDownIsMask(x: Quad)
    ensures And(x, 0xFFFF_FFFF_FFFF_F000) == PageDown(x)
  {
    PowersOfTwo();
    AndHighMask(x, 12, 64);
  }

  /** The page-trimmed region is available memory that can hold len bytes below the limit. */
  predicate Holds(r: Region, len: int, limit: int)
  {
    && r.kind == 1
    && PageUp(r.base) + len <= PageDown(r.base + r.len)
    && PageUp(r.base) + len <= limit
  }

  /** The highest place in the trimmed region for len bytes below the limit. */
  function HighestStart(r: Region, len: int, limit: int): int
  {
    (if PageDown(r.base + r.len) <= limit then PageDown(r.base + r.len) else limit) - len
  }

  function Better(best: Option<int>, r: Region, len: int, limit: int): Option<int>
  {
    if !Holds(r, len, limit) || (best.Some? && best.value > PageUp(r.base)) then best
    else Some(HighestStart(r, len, limit))
  }

  /**
   * The choice among the regions seen so far: a later region wins unless its base is below the
   * place already chosen.
   */
  function Select(rs: seq<Region>, len: int, limit: int): Option<int>
  {
    if rs == [] then None
    else
      var r := rs[|rs| - 1];
      Better(Select(rs[..|rs| - 1], len, limit), r, len, limit)
  }

  /** The place as a 32-bit pointer holds it. */
  function Place(r: Region, len: int, limit: int): Word
  {
    Wrap(HighestStart(r, len, limit))
  }

  function BetterPlace(best: Option<int>, r: Region, len: int, limit: int): Option<int>
  {
    if !Holds(r, len, limit) || (best.Some? && best.value > PageUp(r.base)) then best
    else Some(Place(r, len, limit))
  }

  /** The choice among the regions when the place chosen so far is kept in a 32-bit pointer. */
  function Chosen(rs: seq<Region>, len: int, limit: int): (r: Option<int>)
    ensures r.Some? ==> 0 <= r.value < 0x1_0000_0000
  {
    if rs == [] then None
    else
      var r := rs[|rs| - 1];
      BetterPlace(Chosen(rs[..|rs| - 1], len, limit), r, len, limit)
  }

  /** The first region that can hold the bytes. */
  function FirstFit(rs: seq<Region>, len: int, limit: int): Option<int>
  {
    if rs == [] then None
    else if Holds(rs[0], len, limit) then Some(Place(rs[0], len, limit))
    else FirstFit(rs[1..], len, limit)
  }

  /** Available regions do not overlap. */
  ghost predicate Disjoint(rs: seq<Region>)
  {
    forall i, j :: 0 <= i < j < |rs| && rs[i].kind == 1 && rs[j].kind == 1 ==>
      rs[i].base + rs[i].len <= rs[j].base || rs[j].base + rs[j].len <= rs[i].base
  }

  /**
   * Whatever the map, the search succeeds exactly when some region can hold the bytes, and picks a
   * place in such a region.
   */
  lemma {:induction false} SelectSound(rs: seq<Region>, len: int, limit: int)
    ensures Select(rs, len, limit).Some? <==> exists i :: 0 <= i < |rs| && Holds(rs[i], len, limit)
    ensures Select(rs, len, limit).Some? ==>
              exists i :: 0 <= i < |rs| && Holds(rs[i], len, limit)
                && Select(rs, len, limit).value == HighestStart(rs[i], len, limit)
  {
    if rs != [] {
      var init, r := rs[..|rs| - 1], rs[|rs| - 1];
      SelectSound(init, len, limit);
      if Holds(r, len, limit) {
        assert Holds(rs[|rs| - 1], len, limit);
      }
    }
  }

  lemma PageFacts(x: int)
    ensures PageDown(x) <= x < PageDown(x) + 0x1000
    ensures x >= 0 ==> PageDown(x) >= 0
    ensures PageDown(x) % 0x1000 == 0
    ensures x <= PageUp(x) < x + 0x1000
  {
  }

  /** From lo to hi there are whole pages of the region. */
  ghost predicate PagesOf(r: Region, lo: int, hi: int)
  {
    lo % 0x1000 == 0 && hi % 0x1000 == 0 && r.base <= lo && hi <= r.base + r.len
  }

  /** The len bytes at x are available, lie in whole pages of the region, and end at or below the limit. */
  ghost predicate IsPlace(r: Region, len: int, limit: int, x: int)
  {
    && r.kind == 1 && x + len <= limit
    && exists lo, hi :: PagesOf(r, lo, hi) && lo <= x && x + len <= hi
  }

  lemma PagesInside(r: Region, lo: int, hi: int)
    requires PagesOf(r, lo, hi)
    ensures PageUp(r.base) <= lo && hi <= PageDown(r.base + r.len)
  {
  }

  lemma TrimmedPages(r: Region)
    ensures PagesOf(r, PageUp(r.base), PageDown(r.base + r.len))
  {
    hide PageDown;
    PageFacts(r.base as int + 0xFFF);
    PageFacts(r.base);
    PageFacts(r.base as int + r.len);
  }

  /** A region can hold the bytes if and only if there is a place for them; the highest start is the greatest place. */
  lemma GreatestPlace(r: Region, len: int, limit: int)
    requires len >= 0
    ensures Holds(r, len, limit) <==> exists x :: IsPlace(r, len, limit, x)
    ensures Holds(r, len, limit) ==> IsPlace(r, len, limit, HighestStart(r, len, limit))
    ensures forall x :: IsPlace(r, len, limit, x) ==> x <= HighestStart(r, len, limit)
  {
    hide PageUp, PageDown, PagesOf;
    TrimmedPages(r);
    forall x | IsPlace(r, len, limit, x)
      ensures Holds(r, len, limit) && x <= HighestStart(r, len, limit)
    {
      var lo, hi :| PagesOf(r, lo, hi) && lo <= x && x + len <= hi;
      PagesInside(r, lo, hi);
    }
    if Holds(r, len, limit) {
      assert IsPlace(r, len, limit, HighestStart(r, len, limit));
    }
  }

  lemma HeldIsAvailable(r: Region, len: int, limit: int)
    ensures Holds(r, len, limit) ==> r.kind == 1
  {
  }

  /** Of two disjoint regions, the one with the base above the other's place has the higher place, and conversely. */
  lemma HigherBaseWins(q: Region, r: Region, len: int, limit: int)
    requires len >= 0
    requires Holds(q, len, limit) && Holds(r, len, limit)
    requires q.base + q.len <= r.base || r.base + r.len <= q.base
    ensures if HighestStart(q, len, limit) > PageUp(r.base)
            then HighestStart(r, len, limit) <= HighestStart(q, len, limit)
            else HighestStart(q, len, limit) <= HighestStart(r, len, limit)
  {
  }

  /** The region q can hold the bytes, and no region offers a higher place. */
  ghost predicate IsTop(rs: seq<Region>, len: int, limit: int, q: Region)
  {
    && q in rs && Holds(q, len, limit)
    && forall r :: r in rs && Holds(r, len, limit) ==> HighestStart(r, len, limit) <= HighestStart(q, len, limit)
  }

  /** The search picks the highest place that any region offers, when there is one. */
  ghost predicate FindsHighest(rs: seq<Region>, len: int, limit: int)
  {
    Select(rs, len, limit).Some? ==>
      exists q :: IsTop(rs, len, limit, q) && Select(rs, len, limit).value == HighestStart(q, len, limit)
  }

  /**
   * Every place below the highest one is at or below the trimmed base of some region that offers
   * the highest one.
   */
  ghost predicate TopsReachable(rs: seq<Region>, len: int, limit: int)
  {
    forall r :: r in rs && Holds(r, len, limit) ==>
      IsTop(rs, len, limit, r) || exists q :: IsTop(rs, len, limit, q) && HighestStart(r, len, limit) <= PageUp(q.base)
  }

  /** Some region offers the highest place, when any can hold the bytes. */
  lemma {:induction false} TopExists(rs: seq<Region>, len: int, limit: int) returns (q: Region)
    requires exists r :: r in rs && Holds(r, len, limit)
    ensures IsTop(rs, len, limit, q)
  {
    hide Holds, HighestStart;
    var init, r := rs[..|rs| - 1], rs[|rs| - 1];
    if exists r :: r in init && Holds(r, len, limit) {
      q := TopExists(init, len, limit);
      if Holds(r, len, limit) && HighestStart(r, len, limit) > HighestStart(q, len, limit) {
        q := r;
      }
    } else {
      q := r;
    }
  }

  /** With more regions the chosen place never gets lower. */
  lemma BetterGrows(best: Option<int>, r: Region, len: int, limit: int)
    ensures best.Some? ==> Better(best, r, len, limit).Some? && best.value <= Better(best, r, len, limit).value
    ensures Holds(r, len, limit) && (best.Some? ==> best.value <= PageUp(r.base)) ==>
              Better(best, r, len, limit) == Some(HighestStart(r, len, limit))
  {
    PageFacts(r.base + r.len);
  }

  lemma {:induction false} SelectGrows(rs: seq<Region>, k: nat, len: int, limit: int)
    requires k <= |rs|
    ensures Select(rs[..k], len, limit).Some? ==>
              Select(rs, len, limit).Some? && Select(rs[..k], len, limit).value <= Select(rs, len, limit).value
    decreases |rs| - k
  {
    hide Better;
    if k == |rs| {
      assert rs[..k] == rs;
    } else {
      assert rs[..k + 1][..k] == rs[..k];
      BetterGrows(Select(rs[..k], len, limit), rs[k], len, limit);
      SelectGrows(rs, k + 1, len, limit);
    }
  }

  /** A region whose trimmed base is at or above the final choice was taken when it was read. */
  lemma TakenWhenRead(rs: seq<Region>, k: nat, len: int, limit: int)
    requires k < |rs| && Holds(rs[k], len, limit)
    requires Select(rs, len, limit).Some? && Select(rs, len, limit).value <= PageUp(rs[k].base)
    ensures HighestStart(rs[k], len, limit) <= Select(rs, len, limit).value
  {
    hide Better, Holds, HighestStart;
    SelectGrows(rs, k, len, limit);
    SelectGrows(rs, k + 1, len, limit);
    assert rs[..k + 1][..k] == rs[..k];
    BetterGrows(Select(rs[..k], len, limit), rs[k], len, limit);
  }

  /** When the highest places are reachable, the search finds one of them, in whatever order it reads the regions. */
  lemma ReachableIsFound(rs: seq<Region>, len: int, limit: int)
    requires TopsReachable(rs, len, limit)
    ensures FindsHighest(rs, len, limit)
  {
    hide Select, Holds, HighestStart;
    SelectSound(rs, len, limit);
    if Select(rs, len, limit).Some? {
      var i :| 0 <= i < |rs| && Holds(rs[i], len, limit)
        && Select(rs, len, limit).value == HighestStart(rs[i], len, limit);
      if !IsTop(rs, len, limit, rs[i]) {
        var q :| IsTop(rs, len, limit, q) && HighestStart(rs[i], len, limit) <= PageUp(q.base);
        var k :| 0 <= k < |rs| && rs[k] == q;
        TakenWhenRead(rs, k, len, limit);
      }
    }
  }

  /** A first choice above the trimmed bases of all regions with the highest place shuts them out. */
  lemma {:induction false} ShutOut(first: Region, rs: seq<Region>, len: int, limit: int, top: int)
    requires Holds(first, len, limit) && HighestStart(first, len, limit) < top
    requires forall r :: r in rs && Holds(r, len, limit) ==>
               HighestStart(r, len, limit) < top || HighestStart(first, len, limit) > PageUp(r.base)
    ensures Select([first] + rs, len, limit).Some?
    ensures HighestStart(first, len, limit) <= Select([first] + rs, len, limit).value < top
    decreases |rs|
  {
    hide Holds, HighestStart;
    if rs == [] {
      assert [first] + rs == [first] && [first][..0] == [];
    } else {
      var init, r := rs[..|rs| - 1], rs[|rs| - 1];
      ShutOut(first, init, len, limit, top);
      assert ([first] + rs)[..|rs|] == [first] + init;
      BetterGrows(Select([first] + init, len, limit), r, len, limit);
    }
  }

  /** Moving the region at i to the front. */
  lemma MovedToFront(rs: seq<Region>, i: nat)
    requires i < |rs|
    ensures multiset([rs[i]] + (rs[..i] + rs[i + 1..])) == multiset(rs)
  {
    assert rs == rs[..i] + [rs[i]] + rs[i + 1..];
  }

  lemma SameRegions(rs: seq<Region>, ps: seq<Region>)
    requires multiset(ps) == multiset(rs)
    ensures forall r :: r in rs <==> r in ps
  {
    assert forall r :: r in rs <==> r in multiset(rs);
    assert forall r :: r in ps <==> r in multiset(ps);
  }

  /** The condition depends on which regions there are, not on their order. */
  lemma ReorderedReachable(rs: seq<Region>, ps: seq<Region>, len: int, limit: int)
    requires multiset(ps) == multiset(rs)
    requires TopsReachable(rs, len, limit)
    ensures TopsReachable(ps, len, limit)
  {
    hide Holds, HighestStart;
    SameRegions(rs, ps);
    assert forall q :: IsTop(rs, len, limit, q) <==> IsTop(ps, len, limit, q);
  }

  /** When the highest places are not reachable, there is an order in which the search misses them. */
  lemma UnreachableIsMissed(rs: seq<Region>, len: int, limit: int) returns (ps: seq<Region>)
    requires !TopsReachable(rs, len, limit)
    ensures multiset(ps) == multiset(rs) && !FindsHighest(ps, len, limit)
  {
    hide Holds, HighestStart, Select;
    var r :| r in rs && Holds(r, len, limit) && !IsTop(rs, len, limit, r)
             && forall q :: IsTop(rs, len, limit, q) ==> HighestStart(r, len, limit) > PageUp(q.base);
    var i :| 0 <= i < |rs| && rs[i] == r;
    var top := TopExists(rs, len, limit);
    var rest := rs[..i] + rs[i + 1..];
    ps := [r] + rest;
    MovedToFront(rs, i);
    SameRegions(rs, ps);
    assert forall q :: IsTop(rs, len, limit, q) <==> IsTop(ps, len, limit, q);
    forall q | q in rest && Holds(q, len, limit)
      ensures || HighestStart(q, len, limit) < HighestStart(top, len, limit)
              || HighestStart(r, len, limit) > PageUp(q.base)
    {
      assert q in rs;
      if HighestStart(q, len, limit) >= HighestStart(top, len, limit) {
        assert IsTop(rs, len, limit, q);
      }
    }
    ShutOut(r, rest, len, limit, HighestStart(top, len, limit));
  }

  /**
   * The search finds the highest place in every order of the regions if and only if every lower
   * place is at or below the trimmed base of some region that offers the highest one.
   */
  lemma HighestInEveryOrder(rs: seq<Region>, len: int, limit: int)
    ensures TopsReachable(rs, len, limit)
       <==> forall ps :: multiset(ps) == multiset(rs) ==> FindsHighest(ps, len, limit)
  {
    hide FindsHighest, TopsReachable;
    if TopsReachable(rs, len, limit) {
      forall ps | multiset(ps) == multiset(rs)
        ensures FindsHighest(ps, len, limit)
      {
        ReorderedReachable(rs, ps, len, limit);
        ReachableIsFound(ps, len, limit);
      }
    } else {
      var ps := UnreachableIsMissed(rs, len, limit);
    }
  }

  /** On a map whose available regions are disjoint, the highest places are reachable. */
  lemma DisjointIsReachable(rs: seq<Region>, len: int, limit: int)
    requires len >= 0
    requires Disjoint(rs)
    ensures TopsReachable(rs, len, limit)
  {
    hide Holds, HighestStart, PageUp;
    forall r | r in rs && Holds(r, len, limit) && !IsTop(rs, len, limit, r)
      ensures exists q :: IsTop(rs, len, limit, q) && HighestStart(r, len, limit) <= PageUp(q.base)
    {
      var q := TopExists(rs, len, limit);
      var i :| 0 <= i < |rs| && rs[i] == r;
      var j :| 0 <= j < |rs| && rs[j] == q;
      HeldIsAvailable(q, len, limit);
      HeldIsAvailable(r, len, limit);
      assert i < j || j < i;
      HigherBaseWins(r, q, len, limit);
    }
  }

  /**
   * On a map whose available regions are disjoint, the place chosen is the highest that any
   * region offers, although it is only ever compared with the bases of regions.
   */
  lemma SelectHighest(rs: seq<Region>, len: int, limit: int)
    requires len >= 0
    requires Disjoint(rs)
    ensures forall i :: 0 <= i < |rs| && Holds(rs[i], len, limit) ==>
              Select(rs, len, limit).Some? && HighestStart(rs[i], len, limit) <= Select(rs, len, limit).value
  {
    hide Holds, HighestStart, Select;
    DisjointIsReachable(rs, len, limit);
    ReachableIsFound(rs, len, limit);
    SelectSound(rs, len, limit);
  }

  /** The chosen bytes are page-trimmed available memory below the limit. */
  lemma ChosenInside(r: Region, len: int, limit: int)
    requires Holds(r, len, limit)
    ensures r.base <= PageUp(r.base) <= HighestStart(r, len, limit)
    ensures HighestStart(r, len, limit) + len <= limit
    ensures HighestStart(r, len, limit) + len <= r.base + r.len
  {
  }

  /**
   * What the search finds, in terms of the map alone: a place in some region exactly when there is
   * one, and with reachable tops, as on a map of disjoint regions, the greatest of all.
   */
  lemma SelectIsGreatest(rs: seq<Region>, len: int, limit: int)
    requires len >= 0
    ensures Select(rs, len, limit).Some? <==> exists i, x :: 0 <= i < |rs| && IsPlace(rs[i], len, limit, x)
    ensures Select(rs, len, limit).Some? ==>
              exists i :: 0 <= i < |rs| && IsPlace(rs[i], len, limit, Select(rs, len, limit).value)
    ensures Disjoint(rs) || TopsReachable(rs, len, limit) ==>
              forall i, x :: 0 <= i < |rs| && IsPlace(rs[i], len, limit, x) ==>
                Select(rs, len, limit).Some? && x <= Select(rs, len, limit).value
  {
    hide Select, Holds, HighestStart, IsPlace, TopsReachable, Disjoint;
    SelectSound(rs, len, limit);
    forall i | 0 <= i < |rs|
      ensures Holds(rs[i], len, limit) <==> exists x :: IsPlace(rs[i], len, limit, x)
      ensures Holds(rs[i], len, limit) ==> IsPlace(rs[i], len, limit, HighestStart(rs[i], len, limit))
      ensures forall x :: IsPlace(rs[i], len, limit, x) ==> x <= HighestStart(rs[i], len, limit)
    {
      GreatestPlace(rs[i], len, limit);
    }
    if Disjoint(rs) {
      DisjointIsReachable(rs, len, limit);
    }
    if TopsReachable(rs, len, limit) {
      ReachableIsFound(rs, len, limit);
    }
  }

  /** Without highest: a place in the first region that has any, the greatest one there. */
  lemma {:induction false} FirstFitMeans(rs: seq<Region>, len: int, limit: int)
    requires len >= 0
    ensures FirstFit(rs, len, limit).Some? <==> exists i, x :: 0 <= i < |rs| && IsPlace(rs[i], len, limit, x)
    ensures FirstFit(rs, len, limit).Some? ==>
              exists i, x :: 0 <= i < |rs| && IsPlace(rs[i], len, limit, x)
                && FirstFit(rs, len, limit).value == Wrap(x)
                && (forall y :: IsPlace(rs[i], len, limit, y) ==> y <= x)
                && forall j, y :: 0 <= j < i ==> !IsPlace(rs[j], len, limit, y)
  {
    hide Holds, HighestStart, IsPlace, Wrap;
    if rs != [] {
      GreatestPlace(rs[0], len, limit);
      FirstFitMeans(rs[1..], len, limit);
      if Holds(rs[0], len, limit) {
        assert IsPlace(rs[0], len, limit, HighestStart(rs[0], len, limit));
      } else if FirstFit(rs[1..], len, limit).Some? {
        var i, x :| 0 <= i < |rs[1..]| && IsPlace(rs[1..][i], len, limit, x)
                    && FirstFit(rs[1..], len, limit).value == Wrap(x)
                    && (forall y :: IsPlace(rs[1..][i], len, limit, y) ==> y <= x)
                    && forall j, y :: 0 <= j < i ==> !IsPlace(rs[1..][j], len, limit, y);
        assert rs[i + 1] == rs[1..][i];
        forall j, y | 0 <= j < i + 1
          ensures !IsPlace(rs[j], len, limit, y)
        {
          assert j > 0 ==> rs[j] == rs[1..][j - 1];
        }
      } else {
        forall i, x | 0 <= i < |rs|
          ensures !IsPlace(rs[i], len, limit, x)
        {
          assert i > 0 ==> rs[i] == rs[1..][i - 1];
        }
      }
    }
  }

  lemma SelectSnoc(rs: seq<Region>, r: Region, len: int, limit: int)
    ensures Select(rs + [r], len, limit) == Better(Select(rs, len, limit), r, len, limit)
  {
    assert (rs + [r])[..|rs|] == rs;
  }

  lemma SelectNothing(len: int, limit: int)
    ensures Select([], len, limit) == None
    ensures Chosen([], len, limit) == None
    ensures FirstFit([], len, limit) == None
  {
  }

  lemma WholePages(k: int, x: int)
    requires x == 0x1000 * k
    ensures PageUp(x) == x == PageDown(x)
  {
  }

  lemma TwoPlaces()
    ensures var q, r, len, limit := Region(0, 0x1_0000, 1), Region(0x1000, 0x2_0000, 1), 0x1000, 0x10_0000;
            && Better(None, q, len, limit) == Some(0xF000) == Better(Some(0xF000), r, len, limit)
            && Holds(r, len, limit) && HighestStart(r, len, limit) == 0x2_0000
  {
    hide PageUp, PageDown;
    WholePages(0, 0);
    WholePages(1, 0x1000);
    WholePages(0x10, 0x1_0000);
    WholePages(0x21, 0x2_1000);
  }

  /** With overlapping regions the choice need not be the highest. */
  lemma OverlapMissesHighest()
    ensures var rs := [Region(0, 0x1_0000, 1), Region(0x1000, 0x2_0000, 1)];
            && Select(rs, 0x1000, 0x10_0000) == Some(0xF000)
            && Holds(rs[1], 0x1000, 0x10_0000)
            && HighestStart(rs[1], 0x1000, 0x10_0000) == 0x2_0000
  {
    hide Select, Better, Holds, HighestStart;
    var q, r := Region(0, 0x1_0000, 1), Region(0x1000, 0x2_0000, 1);
    TwoPlaces();
    SelectNothing(0x1000, 0x10_0000);
    SelectSnoc([], q, 0x1000, 0x10_0000);
    SelectSnoc([q], r, 0x1000, 0x10_0000);
    assert [] + [q] == [q] && [q] + [r] == [q, r];
  }

  lemma PageUpFacts(x: int)
    ensures PageUp(x) % 0x1000 == 0
    ensures x <= PageUp(x) < x + 0x1000
  {
  }

  /** Subtracting a page-aligned number commutes with rounding down. */
  lemma PageDownShift(x: int, page: int)
    requires page % 0x1000 == 0
    ensures PageDown(x - page) == PageDown(x) - page
  {
  }

  /** What the search makes of one region: the trimmed start and length, when there is any. */
  method Trim(r: Region) returns (some: bool, addr: Quad, len: Quad)
    requires InRange(r)
    ensures some <==> PageUp(r.base) <= r.base + r.len
    ensures some ==> addr == PageUp(r.base) && len == PageDown(r.base + r.len) - PageUp(r.base)
  {
    hide WrapQuad, PageDown;
    WrapQuadBelow(r.base as int + 0xFFF);
    WrapQuadBelow(r.base as int + r.len);
    PageFacts(r.base);
    PageFacts(r.base as int + 0xFFF);
    addr := PageDown(WrapQuad(r.base as int + 0xFFF));
    some := addr <= WrapQuad(r.base as int + r.len);
    len := r.len;
    if some {
      WrapQuadBelow(addr as int - r.base);
      WrapQuadBelow(len as int - (addr as int - r.base));
      len := WrapQuad(len as int - WrapQuad(addr as int - r.base));
      PageDownShift(r.base + r.len, addr);
      PageFacts(len);
      len := PageDown(len);
    }
  }

  lemma TooSmall(r: Region, len: nat)
    requires PageUp(r.base) > r.base + r.len
    ensures PageUp(r.base) + len > PageDown(r.base + r.len)
  {
    PageFacts(r.base + r.len);
  }

  /** A top at or above 4 GiB truncates, but subtracting the length wraps along with it. */
  lemma PlaceInWord(top: int, len: int)
    ensures Wrap(Wrap(top) as int - len) == Wrap(top - len)
  {
    var k := top / 0x1_0000_0000;
    var rest := Wrap(top) as int - len;
    assert top - len == 0x1_0000_0000 * k + rest;
    ModUnique(top - len, 0x1_0000_0000, k + rest / 0x1_0000_0000, rest % 0x1_0000_0000);
  }

  /** Whether a region can hold the bytes, its trimmed base, and the place it offers. */
  method Candidate(r: Region, len: Word, limit: Quad) returns (fits: bool, addr: Quad, place: Word)
    requires InRange(r)
    requires len < limit
    ensures fits == Holds(r, len, limit)
    ensures fits ==> addr == PageUp(r.base) && place == Place(r, len, limit)
  {
    hide PageDown, WrapQuad, Wrap;
    fits, place := false, 0;
    var some, size;
    some, addr, size := Trim(r);
    if !some {
      PageFacts(r.base + r.len);
      TooSmall(r, len);
      return;
    }
    if r.kind == 1 && size >= len && addr <= limit - len {
      fits := true;
      PageFacts(r.base + r.len);
      WrapQuadBelow(addr as int + size);
      var top := WrapQuad(addr as int + size);
      if top > limit {
        top := limit;
      }
      PlaceInWord(top, len);
      place := Wrap(Wrap(top) as int - len);
    }
  }

  lemma ChosenSnoc(rs: seq<Region>, r: Region, len: int, limit: int)
    ensures Chosen(rs + [r], len, limit) == BetterPlace(Chosen(rs, len, limit), r, len, limit)
  {
    assert (rs + [r])[..|rs|] == rs;
  }

  /** One entry of the walk. */
  lemma WalkStep(m: seq<Byte>, a: nat, end: nat)
    requires MapReadable(m, a, end)
    ensures a + 24 <= |m| && a + 4 <= NextEntry(m, a) < 0x1_0000_0000
    ensures RegionsFrom(m, a, end)[0] == RegionAt(m, a)
    ensures var next := NextEntry(m, a);
            if next < end then MapReadable(m, next, end) && RegionsFrom(m, a, end)[1..] == RegionsFrom(m, next, end)
            else RegionsFrom(m, a, end)[1..] == []
  {
  }

  lemma FirstFitStep(rs: seq<Region>, len: int, limit: int)
    requires rs != []
    ensures FirstFit(rs, len, limit)
         == if Holds(rs[0], len, limit) then Some(Place(rs[0], len, limit)) else FirstFit(rs[1..], len, limit)
  {
  }

  /** All regions are in range. */
  ghost predicate AllInRange(rs: seq<Region>)
  {
    forall i :: 0 <= i < |rs| ==> InRange(rs[i])
  }

  /** In a pointer the place is exact when it is below 4 GiB. */
  lemma PlaceExact(r: Region, len: int, limit: int)
    requires Holds(r, len, limit) && len >= 0
    ensures Place(r, len, limit) == HighestStart(r, len, limit) <==> HighestStart(r, len, limit) < 0x1_0000_0000
  {
    hide Holds, HighestStart;
    ChosenInside(r, len, limit);
    PageUpFacts(r.base);
    if HighestStart(r, len, limit) < 0x1_0000_0000 {
      WrapBelow(HighestStart(r, len, limit));
    }
  }

  lemma {:induction false} ChosenIsSelect(rs: seq<Region>, len: int, limit: int)
    requires 0 <= len && limit - len < 0x1_0000_0000
    ensures Chosen(rs, len, limit) == Select(rs, len, limit)
  {
    hide Holds, HighestStart, Place, PageUp;
    if rs != [] {
      var r := rs[|rs| - 1];
      ChosenIsSelect(rs[..|rs| - 1], len, limit);
      if Holds(r, len, limit) {
        ChosenInside(r, len, limit);
        PlaceExact(r, len, limit);
      }
    }
  }

  lemma WidestRegion(len: Word, limit: Quad)
    requires len < limit && limit - len >= 0x1_0000_0000
    ensures var r := Region(0, 0xFFFF_FFFF_FFFF_F000, 1);
            Holds(r, len, limit) && HighestStart(r, len, limit) >= 0x1_0000_0000
  {
  }

  /** Keeping places in 32-bit pointers makes no difference on any map if and only if they are all below 4 GiB. */
  lemma PointersSuffice(len: Word, limit: Quad)
    requires len < limit
    ensures limit - len < 0x1_0000_0000
       <==> forall rs :: AllInRange(rs) ==> Chosen(rs, len, limit) == Select(rs, len, limit)
  {
    hide Chosen, Select;
    if limit - len < 0x1_0000_0000 {
      forall rs | AllInRange(rs)
        ensures Chosen(rs, len, limit) == Select(rs, len, limit)
      {
        ChosenIsSelect(rs, len, limit);
      }
    } else {
      var r := Region(0, 0xFFFF_FFFF_FFFF_F000, 1);
      assert AllInRange([r]);
      WidestRegion(len, limit);
      PlaceExact(r, len, limit);
      ChosenSnoc([], r, len, limit);
      SelectSnoc([], r, len, limit);
      SelectNothing(len, limit);
      assert [] + [r] == [r];
      assert Chosen([r], len, limit) != Select([r], len, limit);
    }
  }

  /**
   * Find len bytes of page-trimmed available memory below the limit: the place chosen among all
   * regions, or in the first one that fits unless the highest is asked for.
   */
  method FindMemory(mem: array<Byte>, mbi: Mbi, len: Word, highest: bool, limit: Quad)
    returns (found: bool, start: Word, foundLen: Word)
    requires MapOk(mem[..], mbi.mmapAddr, mbi.mmapLength)
    requires AllInRange(Regions(mem[..], mbi.mmapAddr, mbi.mmapLength))
    ensures var rs := Regions(mem[..], mbi.mmapAddr, mbi.mmapLength);
            var best := if highest then Chosen(rs, len, limit) else FirstFit(rs, len, limit);
            (found <==> limit > len && best.Some?) && (found ==> start == best.value && foundLen == len)
    ensures found && highest && limit - len < 0x1_0000_0000 ==>
              var rs := Regions(mem[..], mbi.mmapAddr, mbi.mmapLength);
              && (exists i :: 0 <= i < |rs| && IsPlace(rs[i], len, limit, start))
              && (Disjoint(rs) ==> forall i, x :: 0 <= i < |rs| && IsPlace(rs[i], len, limit, x) ==> x <= start)
  {
    hide Holds, Place, InRange, PageUp, MapReadable, RegionsFrom, NextEntry, RegionAt, Chosen, FirstFit;
    hide IsPlace, Disjoint, TopsReachable, Select;
    SelectNothing(len, limit);
    found, start, foundLen := false, 0, 0;
    if limit <= len {
      return;
    }
    var a := mbi.mmapAddr;
    var end := MapEnd(a, mbi.mmapLength);
    ghost var rs := Regions(mem[..], a, mbi.mmapLength);
    ghost var seen: seq<Region> := [];
    ghost var left := rs;
    while a != 0
      invariant rs == seen + left
      invariant if a != 0 then MapReadable(mem[..], a, end) && left == RegionsFrom(mem[..], a, end) else left == []
      invariant found == Chosen(seen, len, limit).Some?
      invariant found ==> start == Chosen(seen, len, limit).value && foundLen == len
      invariant !highest ==> !found && FirstFit(rs, len, limit) == FirstFit(left, len, limit)
      decreases a != 0, end - a
    {
      WalkStep(mem[..], a, end);
      FirstFitStep(left, len, limit);
      var r := RegionAt(mem[..], a);
      assert r == left[0] == rs[|seen|];
      var fits, addr, place := Candidate(r, len, limit);
      ChosenSnoc(seen, r, len, limit);
      seen, left := seen + [r], left[1..];
      if fits && !(found && start > addr) {
        found, start, foundLen := true, place, len;
        if !highest {
          return;
        }
      }
      var next := NextEntry(mem[..], a);
      a := if next < end then next else 0;
    }
    assert seen == rs;
    if limit - len < 0x1_0000_0000 {
      ChosenIsSelect(rs, len, limit);
      SelectIsGreatest(rs, len, limit);
    }
  }
}

/**
 * Enumerating PCI functions (standalone/pci.c) and the search for a serial controller
 * (standalone/bender.c). PCI Local Bus Specification 3.0, sections 3.2.2.3.2 and 6.2.1.
 */
module Pci {
  import opened Bits
  import opened HalfWords

  /** What the configuration space answers, by the address of the dword. */
  type Config = Word -> Word

  function Read32(cfg: Config, addr: Word): Word
  {
    cfg(addr - addr % 4)
  }

  /** A byte comes from its lane of the dword. */
  function Read8(cfg: Config, addr: Word): Byte
  {
    var w := Read32(cfg, addr);
    match addr % 4
    case 0 => w % 0x100
    case 1 => w / 0x100 % 0x100
    case 2 => w / 0x1_0000 % 0x100
    case _ => w / 0x100_0000
  }

  /** The configuration address of function code % 8 of device code / 8 (bus and device in one number). */
  function Address(code: nat): (r: Word)
    requires code < 0x1_0000
    ensures r < 0x8100_0000
  {
    0x8000_0000 + 0x100 * code
  }

  /** The address is put together from disjoint bit fields. */
  lemma AddressIsOr(busDevice: Word, fn: Byte)
    requires busDevice < 0x2000 && fn < 8
    ensures Or(Or(0x8000_0000, ShiftLeft(busDevice, 11)), ShiftLeft(fn, 8)) == Address(8 * busDevice + fn)
  {
    hide Or;
    PowersOfTwo();
    assert Pow(2, 24) == 0x100_0000 by {
      PowAdd(2, 16, 8);
    }
    hide Pow;
    assert ShiftLeft(busDevice, 11) == 0x800 * busDevice && ShiftLeft(fn, 8) == 0x100 * fn;
    OrDisjoint(0x8000_0000, 0x800 * busDevice, 24);
    OrDisjoint(0x8000_0000 + 0x800 * busDevice, 0x100 * fn, 11);
  }

  lemma AlignedRead(cfg: Config, addr: Word)
    requires addr % 4 == 0
    ensures Read32(cfg, addr) == cfg(addr)
  {
  }

  lemma RegisterAligned(code: nat, offset: nat)
    requires code < 0x1_0000 && offset % 4 == 0 && offset < 0x100
    ensures (0x8000_0000 + 0x100 * code + offset) % 4 == 0
  {
    ModUnique(0x8000_0000 + 0x100 * code + offset, 4, 0x2000_0000 + 0x40 * code + offset / 4, 0);
  }

  predicate Present(cfg: Config, code: nat)
    requires code < 0x1_0000
  {
    Read32(cfg, Address(code)) != 0xFFFF_FFFF
  }

  /** Bit 7 of the header type of function 0: the device has several functions. */
  predicate Multifunction(cfg: Config, device: nat)
    requires device < 0x2000
  {
    And(Read8(cfg, Address(8 * device) + 14), 0x80) != 0
  }

  /**
   * Which functions there are: function 0 when it is present, others when it is, the device is
   * multifunction and they are.
   */
  predicate Listed(cfg: Config, code: nat)
    requires code < 0x1_0000
  {
    && Present(cfg, code / 8 * 8)
    && (code % 8 == 0 || (Multifunction(cfg, code / 8) && Present(cfg, code)))
  }

  /** All listed functions from a code on. */
  function Enumerate(cfg: Config, from: nat): (r: seq<nat>)
    requires from <= 0x1_0000
    ensures forall k :: 0 <= k < |r| ==> from <= r[k] < 0x1_0000
    decreases 0x1_0000 - from
  {
    if from == 0x1_0000 then [] else (if Listed(cfg, from) then [from] else []) + Enumerate(cfg, from + 1)
  }

  /** The enumeration is strictly ascending, and holds exactly the listed functions. */
  lemma {:induction false} EnumerateIsListed(cfg: Config, from: nat)
    requires from <= 0x1_0000
    ensures forall i, j :: 0 <= i < j < |Enumerate(cfg, from)| ==> Enumerate(cfg, from)[i] < Enumerate(cfg, from)[j]
    ensures forall code :: from <= code < 0x1_0000 ==> (code in Enumerate(cfg, from) <==> Listed(cfg, code))
    decreases 0x1_0000 - from
  {
    hide Listed;
    if from < 0x1_0000 {
      EnumerateIsListed(cfg, from + 1);
    }
  }

  lemma {:induction false} SkipUnlisted(cfg: Config, from: nat, until: nat)
    requires from <= until <= 0x1_0000
    requires forall code :: from <= code < until ==> !Listed(cfg, code)
    ensures Enumerate(cfg, from) == Enumerate(cfg, until)
    decreases until - from
  {
    hide Listed;
    if from < until {
      SkipUnlisted(cfg, from + 1, until);
    }
  }

  lemma FunctionRegister(cfg: Config, code: nat)
    requires code < 0x1_0000
    ensures Read32(cfg, Address(code)) == cfg(Address(code)) == cfg(0x8000_0000 + 0x100 * code)
    ensures Read32(cfg, Address(code) + 12) == cfg(0x8000_0000 + 0x100 * code + 12)
    ensures Read8(cfg, Address(code) + 14) == cfg(0x8000_0000 + 0x100 * code + 12) / 0x1_0000 % 0x100
  {
    RegisterAligned(code, 0);
    RegisterAligned(code, 12);
    ModUnique(0x8000_0000 + 0x100 * code + 14, 4, 0x2000_0003 + 0x40 * code, 2);
  }

  lemma TopBit(x: Byte)
    ensures And(x, 0x80) != 0 <==> x >= 0x80
  {
    hide And;
    assert Pow(2, 7) == 0x80 && Pow(2, 8) == 0x100;
    AndHighMask(x, 7, 8);
  }

  /**
   * The listed functions, by what the configuration space holds: function 0 of a device when its
   * identification is there, another one when it also is, and bit 7 of the header type of
   * function 0, which is bit 23 of the register at 12, says that the device has several functions.
   */
  lemma ListedMeans(cfg: Config, code: nat)
    requires code < 0x1_0000
    ensures Listed(cfg, code) <==>
              && cfg(0x8000_0000 + 0x800 * (code / 8)) != 0xFFFF_FFFF
              && (code % 8 != 0 ==>
                    && cfg(0x8000_0000 + 0x100 * code) != 0xFFFF_FFFF
                    && cfg(0x8000_0000 + 0x800 * (code / 8) + 12) / 0x1_0000 % 0x100 >= 0x80)
  {
    hide And, Read32, Read8, Address;
    FunctionRegister(cfg, code);
    FunctionRegister(cfg, 8 * (code / 8));
    TopBit(Read8(cfg, Address(8 * (code / 8)) + 14));
  }

  class PciDevice {
    var cfgAddress: Word
    var vendorId: Word
    var deviceId: Word

    constructor ()
    {
      cfgAddress, vendorId, deviceId := 0, 0, 0;
    }

    /** This record describes the function with the code. */
    ghost predicate Describes(cfg: Config, code: nat)
      requires code < 0x1_0000
      reads this
    {
      && cfgAddress == Address(code)
      && vendorId < 0x1_0000 && cfg(cfgAddress) == 0x1_0000 * deviceId + vendorId
    }

    method Populate(cfg: Config, addr: Word, ghost code: nat)
      requires code < 0x1_0000 && addr == Address(code)
      modifies this
      ensures Describes(cfg, code)
    {
      hide Read32, Address, Pow, And;
      PowersOfTwo();
      FunctionRegister(cfg, code);
      vendorId := Read32(cfg, addr);
      deviceId := ShiftRight(vendorId, 16);
      AndLowMask(vendorId, 16);
      vendorId := And(vendorId, 0xFFFF);
      cfgAddress := addr;
    }
  }

  lemma NotThere(cfg: Config, code: nat, next: nat)
    requires code < 0x1_0000 && !Present(cfg, code)
    requires next == if code % 8 == 0 then code + 8 else code + 1
    ensures next <= 0x1_0000 && Enumerate(cfg, code) == Enumerate(cfg, next)
  {
    hide Read32, Read8, Present, Multifunction, Enumerate;
    assert forall c :: code <= c < next ==> c / 8 * 8 == code / 8 * 8;
    assert forall c :: code <= c < next ==> !Listed(cfg, c);
    SkipUnlisted(cfg, code, next);
  }

  lemma There(cfg: Config, code: nat, next: nat)
    requires code < 0x1_0000 && Listed(cfg, code)
    requires next == if code % 8 == 0 && !Multifunction(cfg, code / 8) then code + 8 else code + 1
    ensures next <= 0x1_0000 && Enumerate(cfg, code) == [code] + Enumerate(cfg, next)
  {
    hide Read32, Read8, Present, Multifunction;
    assert Enumerate(cfg, code) == [code] + Enumerate(cfg, code + 1);
    hide Enumerate;
    assert forall c :: code < c < next ==> c / 8 == code / 8 && c % 8 != 0;
    SkipUnlisted(cfg, code + 1, next);
  }

  /** The matching ones among some functions. */
  function Matching(matches: Word -> bool, codes: seq<nat>): (r: seq<nat>)
    requires forall k :: 0 <= k < |codes| ==> codes[k] < 0x1_0000
    ensures forall k :: 0 <= k < |r| ==> r[k] in codes && matches(Address(r[k]))
    ensures forall k :: 0 <= k < |codes| && matches(Address(codes[k])) ==> codes[k] in r
  {
    if codes == [] then []
    else (if matches(Address(codes[0])) then [codes[0]] else []) + Matching(matches, codes[1..])
  }

  lemma MatchingStep(matches: Word -> bool, codes: seq<nat>)
    requires forall k :: 0 <= k < |codes| ==> codes[k] < 0x1_0000
    ensures codes == [] ==> Matching(matches, codes) == []
    ensures codes != [] ==>
              var first := if matches(Address(codes[0])) then [codes[0]] else [];
              Matching(matches, codes) == first + Matching(matches, codes[1..])
  {
  }

  class PciIter {
    var busDevice: Word
    var fn: Byte
    var maxFn: Byte

    constructor ()
      ensures busDevice == 0 && fn == 0 && maxFn == 0
    {
      busDevice, fn, maxFn := 0, 0, 0;
    }

    ghost function Position(): nat
      reads this
    {
      8 * busDevice + fn
    }

    /** Between devices, or at a function other than 0 of a device that was found to be multifunction. */
    ghost predicate Valid(cfg: Config)
      reads this
    {
      && busDevice <= 0x2000
      && if maxFn == 0 then fn == 0
         else
           && maxFn == 7 && 1 <= fn <= 7 && busDevice < 0x2000
           && Present(cfg, 8 * busDevice) && Multifunction(cfg, busDevice)
    }

    method Advance()
      requires fn <= maxFn && busDevice < 0x2000
      modifies this
      ensures if old(fn) == old(maxFn) then busDevice == old(busDevice) + 1 && fn == 0 && maxFn == 0
              else busDevice == old(busDevice) && fn == old(fn) + 1 && maxFn == old(maxFn)
      ensures old(fn) < 8 ==>
                Position() == if old(fn) == old(maxFn) then old(Position()) / 8 * 8 + 8 else old(Position()) + 1
    {
      if fn == maxFn {
        fn, maxFn := 0, 0;
        busDevice := busDevice + 1;
      } else {
        fn := fn + 1;
      }
    }

    /** Behind the last device nothing is listed. */
    lemma NothingLeft(cfg: Config)
      requires Valid(cfg) && busDevice >= 0x2000
      ensures Position() == 0x1_0000 && Enumerate(cfg, Position()) == []
    {
    }

    /** Go on to the next function, and describe it: the functions still to come lose their first one. */
    method NextDevice(cfg: Config, dev: PciDevice) returns (found: bool)
      requires Valid(cfg)
      modifies this, dev
      ensures Valid(cfg) && old(Position()) <= Position() <= 0x1_0000
      ensures old(Position()) <= 0x1_0000
      ensures found <==> Enumerate(cfg, old(Position())) != []
      ensures found ==> dev.Describes(cfg, Enumerate(cfg, old(Position()))[0])
      ensures found ==> Enumerate(cfg, Position()) == Enumerate(cfg, old(Position()))[1..]
      ensures !found ==> Enumerate(cfg, Position()) == []
    {
      hide Enumerate, Or, And, ShiftLeft, Read32, Read8, dev.Describes;
      ghost var all := Enumerate(cfg, Position());
      while busDevice < 0x2000
        invariant Valid(cfg) && old(Position()) <= Position() <= 0x1_0000
        invariant Enumerate(cfg, Position()) == all
        decreases 0x1_0000 - Position()
      {
        AddressIsOr(busDevice, fn);
        ghost var code := Position();
        var addr := Or(Or(0x8000_0000, ShiftLeft(busDevice, 11)), ShiftLeft(fn, 8));
        if Read32(cfg, addr) == 0xFFFF_FFFF {
          Advance();
          NotThere(cfg, code, Position());
          continue;
        }
        if maxFn == 0 && And(Read8(cfg, addr + 14), 0x80) != 0 {
          maxFn := 7;
        }
        dev.Populate(cfg, addr, code);
        Advance();
        There(cfg, code, Position());
        found := true;
        return;
      }
      found := false;
      NothingLeft(cfg);
    }

    /** Go on to the next function that matches. */
    method NextMatching(cfg: Config, matches: Word -> bool, dev: PciDevice) returns (found: bool)
      requires Valid(cfg)
      modifies this, dev
      ensures Valid(cfg) && old(Position()) <= Position() <= 0x1_0000
      ensures old(Position()) <= 0x1_0000
      ensures found <==> Matching(matches, Enumerate(cfg, old(Position()))) != []
      ensures found ==> dev.Describes(cfg, Matching(matches, Enumerate(cfg, old(Position())))[0])
      ensures found ==>
                Matching(matches, Enumerate(cfg, Position())) == Matching(matches, Enumerate(cfg, old(Position())))[1..]
      decreases 0x1_0000 - Position()
    {
      hide Enumerate, Read32, Matching;
      ghost var all := Matching(matches, Enumerate(cfg, Position()));
      while true
        invariant Valid(cfg) && old(Position()) <= Position() <= 0x1_0000
        invariant Matching(matches, Enumerate(cfg, Position())) == all
        decreases |Enumerate(cfg, Position())|
      {
        ghost var codes := Enumerate(cfg, Position());
        found := NextDevice(cfg, dev);
        MatchingStep(matches, codes);
        if !found || matches(dev.cfgAddress) {
          return;
        }
      }
    }
  }

  const CLASS_SIMPLE_COMM: Byte := 7
  const SUBCLASS_SERIAL: Byte := 0
  const SUBCLASS_ANY: Byte := 0xFF

  function MatchesClass(cfg: Config, addr: Word, class_: Byte, subclass: Byte): bool
    requires addr + 8 < 0x1_0000_0000
  {
    var fullClass := Or(ShiftLeft(class_, 8), subclass);
    var mask := if subclass == SUBCLASS_ANY then 0xFF00 else 0xFFFF;
    And(fullClass, mask) == And(ShiftRight(Read32(cfg, addr + 8), 16), mask)
  }

  lemma ClassBits(class_: Byte, subclass: Byte, w: Word)
    ensures Or(ShiftLeft(class_, 8), subclass) == 0x100 * class_ + subclass
    ensures ShiftRight(w, 16) == w / 0x1_0000
    ensures forall x :: 0 <= x < 0x1_0000 ==> And(x, 0xFFFF) == x && And(x, 0xFF00) == x - x % 0x100
  {
    hide Or, And;
    PowersOfTwo();
    OrDisjoint(0x100 * class_, subclass, 8);
    forall x | 0 <= x < 0x1_0000
      ensures And(x, 0xFFFF) == x && And(x, 0xFF00) == x - x % 0x100
    {
      AndLowMask(x, 16);
      AndHighMask(x, 8, 16);
    }
  }

  /** The test holds when the class register has the class, and the subclass unless any will do. */
  lemma MatchesClassMeans(cfg: Config, addr: Word, class_: Byte, subclass: Byte)
    requires addr + 8 < 0x1_0000_0000
    ensures MatchesClass(cfg, addr, class_, subclass) <==>
              && Read32(cfg, addr + 8) / 0x100_0000 == class_
              && (subclass == SUBCLASS_ANY || Read32(cfg, addr + 8) / 0x1_0000 % 0x100 == subclass)
  {
    hide Or, And, ShiftLeft, ShiftRight, Read32;
    var w := Read32(cfg, addr + 8);
    ClassBits(class_, subclass, w);
    assert w / 0x1_0000 == 0x100 * (w / 0x100_0000) + w / 0x1_0000 % 0x100;
  }

  /** The test for a serial controller, or for any simple communication device. */
  function IsWanted(cfg: Config, promisc: bool): Word -> bool
  {
    (addr: Word) =>
      addr < 0xFFFF_FFF8 && MatchesClass(cfg, addr, CLASS_SIMPLE_COMM,
                                         if promisc then SUBCLASS_ANY else SUBCLASS_SERIAL)
  }

  /**
   * A listed function that main takes for a serial controller: its class register says simple
   * communication (7), and serial (0) as subclass unless main is promiscuous.
   */
  ghost predicate ControllerAt(cfg: Config, promisc: bool, code: nat)
  {
    && code < 0x1_0000 && Listed(cfg, code)
    && var class_ := cfg(0x8000_0000 + 0x100 * code + 8);
    class_ / 0x100_0000 == 7 && (promisc || class_ / 0x1_0000 % 0x100 == 0)
  }

  /** Main's test accepts exactly these among the listed functions. */
  lemma WantedMeans(cfg: Config, promisc: bool, code: nat)
    requires code < 0x1_0000 && Listed(cfg, code)
    ensures IsWanted(cfg, promisc)(Address(code)) <==> ControllerAt(cfg, promisc, code)
  {
    hide Listed, Read32, MatchesClass;
    var addr := Address(code);
    RegisterAligned(code, 8);
    AlignedRead(cfg, addr + 8);
    MatchesClassMeans(cfg, addr, 7, 0);
    MatchesClassMeans(cfg, addr, 7, 0xFF);
  }

  lemma {:induction false} MatchingAscends(matches: Word -> bool, codes: seq<nat>)
    requires forall k :: 0 <= k < |codes| ==> codes[k] < 0x1_0000
    requires forall i, j :: 0 <= i < j < |codes| ==> codes[i] < codes[j]
    ensures var r := Matching(matches, codes);
            && (forall i, j :: 0 <= i < j < |r| ==> r[i] < r[j])
            && forall code :: code in r <==> code in codes && matches(Address(code))
  {
    if codes != [] {
      MatchingAscends(matches, codes[1..]);
    }
  }

  lemma ControllerListed(cfg: Config, promisc: bool, code: nat)
    requires ControllerAt(cfg, promisc, code)
    ensures code < 0x1_0000 && Listed(cfg, code)
  {
    hide Listed;
  }

  /** The last matching function of the enumeration is the highest one. */
  lemma LastIsHighest(cfg: Config, promisc: bool)
    ensures var all := Matching(IsWanted(cfg, promisc), Enumerate(cfg, 0));
            && (all != [] <==> exists code: nat :: ControllerAt(cfg, promisc, code))
            && (all != [] ==> ControllerAt(cfg, promisc, all[|all| - 1]))
            && (all != [] ==> forall code: nat :: ControllerAt(cfg, promisc, code) ==> code <= all[|all| - 1])
  {
    hide Enumerate, Listed, Matching, IsWanted, ControllerAt;
    var matches := IsWanted(cfg, promisc);
    var codes := Enumerate(cfg, 0);
    EnumerateIsListed(cfg, 0);
    MatchingAscends(matches, codes);
    var all := Matching(matches, codes);
    forall code: nat | ControllerAt(cfg, promisc, code)
      ensures code in all
    {
      ControllerListed(cfg, promisc, code);
      assert code in codes;
      WantedMeans(cfg, promisc, code);
    }
    if all != [] {
      var last := all[|all| - 1];
      assert last in all && last in codes;
      WantedMeans(cfg, promisc, last);
      assert ControllerAt(cfg, promisc, last);
    }
  }

  lemma AddressFormula()
    ensures forall c: nat :: c < 0x1_0000 ==> Address(c) == 0x8000_0000 + 0x100 * c
  {
  }

  /** The last matching controller: the one with the highest address. */
  method FindController(cfg: Config, promisc: bool) returns (found: bool, address: Word)
    ensures found <==> exists code: nat :: ControllerAt(cfg, promisc, code)
    ensures found ==> exists code: nat :: ControllerAt(cfg, promisc, code) && address == 0x8000_0000 + 0x100 * code
    ensures found ==> forall code: nat :: ControllerAt(cfg, promisc, code) ==> 0x8000_0000 + 0x100 * code <= address
  {
    hide Enumerate, ControllerAt, IsWanted, Matching, Address;
    var iter := new PciIter();
    var dev := new PciDevice();
    var matches := IsWanted(cfg, promisc);
    ghost var all := Matching(matches, Enumerate(cfg, 0));
    ghost var n := 0;
    found, address := false, 0;
    while true
      invariant iter.Valid(cfg) && fresh(iter) && fresh(dev) && iter.Position() <= 0x1_0000
      invariant 0 <= n <= |all| && Matching(matches, Enumerate(cfg, iter.Position())) == all[n..]
      invariant found == (n > 0) && (found ==> address == Address(all[n - 1]))
      decreases |all| - n
    {
      var more := iter.NextMatching(cfg, matches, dev);
      if !more {
        break;
      }
      found, address := true, dev.cfgAddress;
      n := n + 1;
    }
    LastIsHighest(cfg, promisc);
    AddressFormula();
  }
}

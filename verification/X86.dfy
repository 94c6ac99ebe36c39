/**
 * The handful of IA-32 instructions that the boot trampoline uses, with fetch,
 * decode and execution as in volume 2 of the Intel Software Developer's Manual.
 * Code and data share one memory; a repeated string instruction takes one step per
 * iteration and is fetched again each time. The direction flag is clear.
 */
module X86 {
  import opened Bits
  import opened Memory

  datatype Instr = MovImm(reg: nat, imm: Word) | RepMovsb | RepStosb | JmpEdx

  datatype Cpu = Cpu(eip: Word, eax: Word, ecx: Word, edx: Word, ebx: Word, esp: Word, ebp: Word, esi: Word, edi: Word,
                     mem: seq<Byte>)

  /** The machine has 4 GiB of memory. */
  predicate Machine(s: Cpu)
  {
    |s.mem| == 0x1_0000_0000
  }

  /** Set a register by its number in instructions. */
  function SetRegister(s: Cpu, reg: nat, w: Word): Cpu
  {
    match reg
    case 0 => s.(eax := w)
    case 1 => s.(ecx := w)
    case 2 => s.(edx := w)
    case 3 => s.(ebx := w)
    case 4 => s.(esp := w)
    case 5 => s.(ebp := w)
    case 6 => s.(esi := w)
    case 7 => s.(edi := w)
    case _ => s
  }

  function Fetch(m: seq<Byte>, a: int): Byte
    requires |m| == 0x1_0000_0000
  {
    m[a % 0x1_0000_0000]
  }

  /** The instruction at address a. */
  function Decode(m: seq<Byte>, a: Word): (r: Option<Instr>)
    requires |m| == 0x1_0000_0000
    ensures r.Some? && r.value.MovImm? ==> r.value.reg < 8
  {
    var op := Fetch(m, a);
    if 0xB8 <= op <= 0xBF then
      Some(MovImm(op - 0xB8, Join(Fetch(m, a + 1), Fetch(m, a + 2), Fetch(m, a + 3), Fetch(m, a + 4))))
    else if op == 0xF3 && Fetch(m, a + 1) == 0xA4 then Some(RepMovsb)
    else if op == 0xF3 && Fetch(m, a + 1) == 0xAA then Some(RepStosb)
    else if op == 0xFF && Fetch(m, a + 1) == 0xE2 then Some(JmpEdx)
    else None
  }

  function Length(i: Instr): nat
  {
    if i.MovImm? then 5 else 2
  }

  function Next(w: Word): Word
  {
    Wrap(w as int + 1)
  }

  /** One iteration of a string move: copy a byte, advance both pointers, count down. */
  function MoveByte(s: Cpu): (r: Cpu)
    requires Machine(s)
    ensures Machine(r)
  {
    s.(esi := Next(s.esi), edi := Next(s.edi), ecx := Wrap(s.ecx as int - 1), mem := s.mem[s.edi := s.mem[s.esi]])
  }

  /** One iteration of a string store: store AL, advance the pointer, count down. */
  function StoreByte(s: Cpu): (r: Cpu)
    requires Machine(s)
    ensures Machine(r)
  {
    s.(edi := Next(s.edi), ecx := Wrap(s.ecx as int - 1), mem := s.mem[s.edi := s.eax % 0x100])
  }

  /** One step of the processor, or nothing for an instruction outside this subset. */
  function Step(s: Cpu): (r: Option<Cpu>)
    requires Machine(s)
    ensures r.Some? ==> Machine(r.value)
  {
    match Decode(s.mem, s.eip)
    case None => None
    case Some(MovImm(reg, imm)) => Some(SetRegister(s, reg, imm).(eip := Wrap(s.eip as int + 5)))
    case Some(RepMovsb) => Some(if s.ecx == 0 then s.(eip := Wrap(s.eip as int + 2)) else MoveByte(s))
    case Some(RepStosb) => Some(if s.ecx == 0 then s.(eip := Wrap(s.eip as int + 2)) else StoreByte(s))
    case Some(JmpEdx) => Some(s.(eip := s.edx))
  }

  /** The state after n steps, or nothing when one of them is outside the subset. */
  function Run(s: Cpu, n: nat): (r: Option<Cpu>)
    requires Machine(s)
    ensures r.Some? ==> Machine(r.value)
    decreases n
  {
    if n == 0 then Some(s)
    else match Step(s)
      case None => None
      case Some(s') => Run(s', n - 1)
  }

  lemma RunStep(s: Cpu, t: Cpu, n: nat)
    requires Machine(s)
    requires Step(s) == Some(t)
    ensures Run(s, n + 1) == Run(t, n)
  {
  }

  lemma RunNothing(s: Cpu)
    requires Machine(s)
    ensures Run(s, 0) == Some(s)
  {
  }

  lemma StepMov(s: Cpu, reg: nat, imm: Word)
    requires Machine(s)
    requires Decode(s.mem, s.eip) == Some(MovImm(reg, imm))
    ensures Step(s) == Some(SetRegister(s, reg, imm).(eip := Wrap(s.eip as int + 5)))
  {
  }

  lemma StepMovsb(s: Cpu)
    requires Machine(s)
    requires Decode(s.mem, s.eip) == Some(RepMovsb)
    ensures Step(s) == Some(if s.ecx == 0 then s.(eip := Wrap(s.eip as int + 2)) else MoveByte(s))
  {
  }

  lemma StepStosb(s: Cpu)
    requires Machine(s)
    requires Decode(s.mem, s.eip) == Some(RepStosb)
    ensures Step(s) == Some(if s.ecx == 0 then s.(eip := Wrap(s.eip as int + 2)) else StoreByte(s))
  {
  }

  lemma StepJmp(s: Cpu)
    requires Machine(s)
    requires Decode(s.mem, s.eip) == Some(JmpEdx)
    ensures Step(s) == Some(s.(eip := s.edx))
  {
  }

  lemma {:induction false} RunAppend(s: Cpu, n: nat, k: nat)
    requires Machine(s)
    requires Run(s, n).Some?
    ensures Run(s, n + k) == Run(Run(s, n).value, k)
    decreases n
  {
    hide Step;
    if n > 0 {
      var t := Step(s).value;
      RunStep(s, t, n - 1);
      RunStep(s, t, n - 1 + k);
      RunAppend(t, n - 1, k);
    }
  }

  /** The bytes of an instruction. */
  function Encode(i: Instr): (r: seq<Byte>)
    requires i.MovImm? ==> i.reg < 8
    ensures |r| == Length(i)
  {
    match i
    case MovImm(reg, imm) => [0xB8 + reg] + WordBytes(imm)
    case RepMovsb => [0xF3, 0xA4]
    case RepStosb => [0xF3, 0xAA]
    case JmpEdx => [0xFF, 0xE2]
  }

  ghost predicate Encodable(prog: seq<Instr>)
  {
    forall k :: 0 <= k < |prog| ==> (prog[k].MovImm? ==> prog[k].reg < 8)
  }

  ghost function EncodeAll(prog: seq<Instr>): (r: seq<Byte>)
    requires Encodable(prog)
  {
    if prog == [] then [] else Encode(prog[0]) + EncodeAll(prog[1..])
  }

  /** The two-byte instructions depend on two bytes only. */
  lemma DecodeKept(m: seq<Byte>, m': seq<Byte>, a: Word, i: Instr)
    requires |m| == |m'| == 0x1_0000_0000
    requires a + 2 <= |m|
    requires m[a] == m'[a] && m[a + 1] == m'[a + 1]
    requires Decode(m, a) == Some(i) && !i.MovImm?
    ensures Decode(m', a) == Some(i)
  {
    assert Fetch(m, a) == m[a] && Fetch(m, a + 1) == m[a + 1];
    assert Fetch(m', a) == m'[a] && Fetch(m', a + 1) == m'[a + 1];
  }

  lemma Fetched(m: seq<Byte>, a: Word)
    requires |m| == 0x1_0000_0000
    ensures Fetch(m, a) == m[a]
  {
  }

  lemma DecodeMov(m: seq<Byte>, a: Word, reg: nat, imm: Word)
    requires |m| == 0x1_0000_0000 && reg < 8 && a + 5 <= |m|
    requires m[a] == 0xB8 + reg && m[a + 1..a + 5] == WordBytes(imm)
    ensures Decode(m, a) == Some(MovImm(reg, imm))
  {
    hide WordBytes, Join, Fetch;
    ReadBackWord(m, a + 1, imm);
    Fetched(m, a);
    Fetched(m, a + 1);
    Fetched(m, a + 2);
    Fetched(m, a + 3);
    Fetched(m, a + 4);
  }

  lemma DecodePair(m: seq<Byte>, a: Word, i: Instr)
    requires |m| == 0x1_0000_0000 && !i.MovImm? && a + 2 <= |m|
    requires [m[a], m[a + 1]] == Encode(i)
    ensures Decode(m, a) == Some(i)
  {
    hide Fetch;
    Fetched(m, a);
    Fetched(m, a + 1);
    assert m[a] == Encode(i)[0] && m[a + 1] == Encode(i)[1];
  }

  /** The registers that the opcodes 0xB8 to 0xBF load. */
  lemma MovOpcodes(s: Cpu, imm: Word)
    requires Machine(s) && s.eip + 5 < 0x1_0000_0000
    requires s.mem[s.eip + 1..s.eip + 5] == WordBytes(imm)
    ensures s.mem[s.eip] == 0xB8 ==> Step(s) == Some(s.(eax := imm, eip := s.eip + 5))
    ensures s.mem[s.eip] == 0xB9 ==> Step(s) == Some(s.(ecx := imm, eip := s.eip + 5))
    ensures s.mem[s.eip] == 0xBA ==> Step(s) == Some(s.(edx := imm, eip := s.eip + 5))
    ensures s.mem[s.eip] == 0xBB ==> Step(s) == Some(s.(ebx := imm, eip := s.eip + 5))
    ensures s.mem[s.eip] == 0xBC ==> Step(s) == Some(s.(esp := imm, eip := s.eip + 5))
    ensures s.mem[s.eip] == 0xBD ==> Step(s) == Some(s.(ebp := imm, eip := s.eip + 5))
    ensures s.mem[s.eip] == 0xBE ==> Step(s) == Some(s.(esi := imm, eip := s.eip + 5))
    ensures s.mem[s.eip] == 0xBF ==> Step(s) == Some(s.(edi := imm, eip := s.eip + 5))
  {
    hide WordBytes, Decode;
    var op := s.mem[s.eip];
    if 0xB8 <= op <= 0xBF {
      DecodeMov(s.mem, s.eip, op - 0xB8, imm);
      WrapBelow(s.eip as int + 5);
    }
  }

  /** One step of the two-byte instructions: REP MOVSB, REP STOSB, JMP EDX. */
  lemma PairOpcodes(s: Cpu)
    requires Machine(s) && s.eip + 2 < 0x1_0000_0000
    requires s.ecx > 0 ==> s.esi + 1 < 0x1_0000_0000 && s.edi + 1 < 0x1_0000_0000
    ensures s.mem[s.eip] == 0xF3 && s.mem[s.eip + 1] == 0xA4 ==>
              Step(s) == Some(if s.ecx == 0 then s.(eip := s.eip + 2)
                              else s.(mem := s.mem[s.edi := s.mem[s.esi]], esi := s.esi + 1, edi := s.edi + 1,
                                      ecx := s.ecx - 1))
    ensures s.mem[s.eip] == 0xF3 && s.mem[s.eip + 1] == 0xAA ==>
              Step(s) == Some(if s.ecx == 0 then s.(eip := s.eip + 2)
                              else s.(mem := s.mem[s.edi := s.eax % 0x100], edi := s.edi + 1, ecx := s.ecx - 1))
    ensures s.mem[s.eip] == 0xFF && s.mem[s.eip + 1] == 0xE2 ==> Step(s) == Some(s.(eip := s.edx))
  {
    hide Decode, Wrap;
    WrapBelow(s.eip as int + 2);
    if s.mem[s.eip] == 0xF3 && s.mem[s.eip + 1] == 0xA4 {
      DecodePair(s.mem, s.eip, RepMovsb);
    } else if s.mem[s.eip] == 0xF3 && s.mem[s.eip + 1] == 0xAA {
      DecodePair(s.mem, s.eip, RepStosb);
    } else if s.mem[s.eip] == 0xFF && s.mem[s.eip + 1] == 0xE2 {
      DecodePair(s.mem, s.eip, JmpEdx);
    }
    if s.ecx > 0 {
      WrapBelow(s.esi as int + 1);
      WrapBelow(s.edi as int + 1);
      WrapBelow(s.ecx as int - 1);
    }
  }

  /** Encoded bytes decode to the instruction they came from. */
  lemma DecodeEncoded(m: seq<Byte>, a: Word, i: Instr)
    requires |m| == 0x1_0000_0000
    requires i.MovImm? ==> i.reg < 8
    requires a + Length(i) <= |m|
    requires m[a..a + Length(i)] == Encode(i)
    ensures Decode(m, a) == Some(i)
  {
    hide Decode, WordBytes;
    var s := m[a..a + Length(i)];
    if i.MovImm? {
      assert m[a] == s[0] && m[a + 1..a + 5] == s[1..] && Encode(i)[1..] == WordBytes(i.imm);
      DecodeMov(m, a, i.reg, i.imm);
    } else {
      assert [m[a], m[a + 1]] == s;
      DecodePair(m, a, i);
    }
  }

  lemma {:induction false} EncodeAllAppend(x: seq<Instr>, y: seq<Instr>)
    requires Encodable(x) && Encodable(y)
    ensures Encodable(x + y)
    ensures EncodeAll(x + y) == EncodeAll(x) + EncodeAll(y)
  {
    hide Encode;
    if x == [] {
      assert x + y == y;
    } else {
      assert (x + y)[1..] == x[1..] + y && (x + y)[0] == x[0];
      EncodeAllAppend(x[1..], y);
    }
  }

  lemma EncodeStep(prog: seq<Instr>)
    requires Encodable(prog) && prog != []
    ensures Encodable(prog[1..]) && EncodeAll(prog) == Encode(prog[0]) + EncodeAll(prog[1..])
  {
  }

  lemma EncodeNothing()
    ensures EncodeAll([]) == []
  {
  }

  lemma EncodeInjective(i: Instr, j: Instr, xs: seq<Byte>, ys: seq<Byte>)
    requires i.MovImm? ==> i.reg < 8
    requires j.MovImm? ==> j.reg < 8
    requires Encode(i) + xs == Encode(j) + ys
    ensures i == j && xs == ys
  {
    var x, y := Encode(i) + xs, Encode(j) + ys;
    assert x[0] == Encode(i)[0] && y[0] == Encode(j)[0];
    assert x[1] == Encode(i)[1] && y[1] == Encode(j)[1];
    assert Length(i) == Length(j);
    assert x[Length(i)..] == xs && y[Length(j)..] == ys;
    assert x[..Length(i)] == Encode(i) && y[..Length(j)] == Encode(j);
    if i.MovImm? {
      assert Encode(i)[1..] == WordBytes(i.imm) && Encode(j)[1..] == WordBytes(j.imm);
      JoinSplit(i.imm);
      JoinSplit(j.imm);
    }
  }

  /** Two programs with the same bytes in front are the same as far as the shorter one goes. */
  lemma {:induction false} EncodingUnique(x: seq<Instr>, y: seq<Instr>, xr: seq<Byte>, yr: seq<Byte>)
    requires Encodable(x) && Encodable(y)
    requires EncodeAll(x) + xr == EncodeAll(y) + yr
    requires |x| <= |y|
    ensures x == y[..|x|]
  {
    hide Encode;
    if x != [] {
      var i, j := x[0], y[0];
      var xs, ys := EncodeAll(x[1..]) + xr, EncodeAll(y[1..]) + yr;
      assert EncodeAll(x) + xr == Encode(i) + xs && EncodeAll(y) + yr == Encode(j) + ys;
      EncodeInjective(i, j, xs, ys);
      EncodingUnique(x[1..], y[1..], xr, yr);
      assert y[..|x|] == [y[0]] + y[1..][..|x| - 1];
    }
  }
}

/**
 * What the machine code of the boot trampoline does when it runs (standalone/elf.c).
 */
module Trampoline {
  import opened Bits
  import opened Memory
  import opened X86

  /** The operands of one copied and zero-filled segment. */
  datatype Segment = Segment(target: Word, src: Word, len: Word, fill: Word)

  /** The instructions for one segment. EDI carries over from the move to the store. */
  function SegmentCode(g: Segment): seq<Instr>
  {
    [MovImm(7, g.target), MovImm(6, g.src), MovImm(1, g.len), RepMovsb, MovImm(1, g.fill), RepStosb]
  }

  function SegmentsCode(segs: seq<Segment>): seq<Instr>
  {
    if segs == [] then [] else SegmentCode(segs[0]) + SegmentsCode(segs[1..])
  }

  /** The whole trampoline. */
  function Program(segs: seq<Segment>, entry: Word, magic: Word): seq<Instr>
  {
    SegmentsCode(segs) + [MovImm(2, entry), MovImm(0, magic), JmpEdx]
  }

  /** The program prog is in memory at a. */
  /** The 24 bytes for one segment: MOV EDI, MOV ESI, MOV ECX, REP MOVSB, MOV ECX, REP STOSB. */
  function SegmentBytes(g: Segment): seq<Byte>
  {
    ([0xBF] + WordBytes(g.target)) + ([0xBE] + WordBytes(g.src)) + ([0xB9] + WordBytes(g.len)) + [0xF3, 0xA4]
    + ([0xB9] + WordBytes(g.fill)) + [0xF3, 0xAA]
  }

  /** The whole trampoline, byte by byte; it ends with MOV EDX, MOV EAX, JMP EDX. */
  function TrampolineBytes(segs: seq<Segment>, entry: Word, magic: Word): seq<Byte>
  {
    if segs == [] then ([0xBA] + WordBytes(entry)) + ([0xB8] + WordBytes(magic)) + [0xFF, 0xE2]
    else SegmentBytes(segs[0]) + TrampolineBytes(segs[1..], entry, magic)
  }

  lemma JoinSix(a: seq<Byte>, b: seq<Byte>, c: seq<Byte>, d: seq<Byte>, e: seq<Byte>, f: seq<Byte>, g: seq<Byte>)
    ensures a + (b + (c + (d + (e + (f + g))))) == (a + b + c + d + e + f) + g
  {
  }

  lemma SegmentEncoded(g: Segment, rest: seq<Instr>)
    requires Encodable(rest)
    ensures Encodable(SegmentCode(g) + rest)
    ensures EncodeAll(SegmentCode(g) + rest) == SegmentBytes(g) + EncodeAll(rest)
  {
    hide WordBytes, EncodeAll;
    var p := SegmentCode(g) + rest;
    var p1, p2, p3, p4, p5 := p[1..], p[2..], p[3..], p[4..], p[5..];
    assert p1[1..] == p2 && p2[1..] == p3 && p3[1..] == p4 && p4[1..] == p5 && p5[1..] == rest;
    EncodeStep(p);
    EncodeStep(p1);
    EncodeStep(p2);
    EncodeStep(p3);
    EncodeStep(p4);
    EncodeStep(p5);
    JoinSix(Encode(p[0]), Encode(p1[0]), Encode(p2[0]), Encode(p3[0]), Encode(p4[0]), Encode(p5[0]), EncodeAll(rest));
  }

  /** The program has exactly these bytes. */
  lemma {:induction false} ProgramBytes(segs: seq<Segment>, entry: Word, magic: Word)
    ensures Encodable(Program(segs, entry, magic))
    ensures EncodeAll(Program(segs, entry, magic)) == TrampolineBytes(segs, entry, magic)
  {
    hide WordBytes, EncodeAll, SegmentCode, SegmentBytes;
    var tail := [MovImm(2, entry), MovImm(0, magic), JmpEdx];
    if segs == [] {
      assert Program(segs, entry, magic) == tail;
      assert tail[1..][1..] == tail[2..] && tail[2..][1..] == [];
      EncodeStep(tail);
      EncodeStep(tail[1..]);
      EncodeStep(tail[2..]);
      EncodeNothing();
    } else {
      ProgramBytes(segs[1..], entry, magic);
      SegmentEncoded(segs[0], Program(segs[1..], entry, magic));
      assert Program(segs, entry, magic) == SegmentCode(segs[0]) + Program(segs[1..], entry, magic);
    }
  }

  ghost predicate CodeAt(m: seq<Byte>, a: nat, prog: seq<Instr>)
  {
    && Encodable(prog)
    && a + |EncodeAll(prog)| < 0x1_0000_0000 <= |m|
    && m[a..a + |EncodeAll(prog)|] == EncodeAll(prog)
  }

  ghost predicate Reaches(s: Cpu, t: Cpu)
    requires Machine(s)
  {
    exists n: nat :: Run(s, n) == Some(t)
  }

  lemma ReachesSelf(s: Cpu)
    requires Machine(s)
    ensures Reaches(s, s)
  {
    hide Step;
    RunNothing(s);
  }

  lemma ReachesTrans(s: Cpu, t: Cpu, u: Cpu)
    requires Machine(s)
    requires Reaches(s, t)
    requires Machine(t)
    requires Reaches(t, u)
    ensures Reaches(s, u)
  {
    var n: nat :| Run(s, n) == Some(t);
    var k: nat :| Run(t, k) == Some(u);
    RunAppend(s, n, k);
    assert Run(s, n + k) == Some(u);
  }

  /** The first instruction of a program in memory, and the rest behind it. */
  lemma CodeHead(m: seq<Byte>, a: Word, prog: seq<Instr>)
    requires |m| == 0x1_0000_0000
    requires prog != [] && CodeAt(m, a, prog)
    ensures Decode(m, a) == Some(prog[0])
    ensures a + Length(prog[0]) < 0x1_0000_0000
    ensures CodeAt(m, a + Length(prog[0]), prog[1..])
    ensures |EncodeAll(prog)| == Length(prog[0]) + |EncodeAll(prog[1..])|
  {
    hide Decode, Encode;
    var all, head, rest := EncodeAll(prog), Encode(prog[0]), EncodeAll(prog[1..]);
    var n := Length(prog[0]);
    assert all == head + rest;
    assert m[a..a + n] == m[a..a + |all|][..n] == head;
    assert m[a + n..a + |all|] == m[a..a + |all|][n..] == rest;
    DecodeEncoded(m, a, prog[0]);
  }

  /** Code stays in memory when only other addresses change. */
  lemma CodeKept(m: seq<Byte>, m': seq<Byte>, a: nat, prog: seq<Instr>)
    requires CodeAt(m, a, prog)
    requires Same(m, m', a, a + |EncodeAll(prog)|)
    ensures CodeAt(m', a, prog)
  {
    SameSlice(m, m', a, a + |EncodeAll(prog)|);
  }

  /** A move of an immediate, followed by the rest of the program. */
  lemma RunMov(s: Cpu, prog: seq<Instr>)
    requires Machine(s)
    requires prog != [] && prog[0].MovImm?
    requires CodeAt(s.mem, s.eip, prog)
    ensures s.eip + 5 < 0x1_0000_0000
    ensures Reaches(s, SetRegister(s, prog[0].reg, prog[0].imm).(eip := s.eip + 5))
    ensures CodeAt(s.mem, s.eip + 5, prog[1..])
  {
    hide Step, Decode, Run, SetRegister;
    CodeHead(s.mem, s.eip, prog);
    StepMov(s, prog[0].reg, prog[0].imm);
    var t := SetRegister(s, prog[0].reg, prog[0].imm).(eip := s.eip + 5);
    RunStep(s, t, 0);
    RunNothing(t);
    assert Run(s, 1) == Some(t);
  }

  /** The register changes of a whole repeated move that ends with memory m. */
  function Moved(s: Cpu, m: seq<Byte>): Cpu
  {
    s.(eip := Wrap(s.eip as int + 2), esi := Wrap(s.esi as int + s.ecx), edi := Wrap(s.edi as int + s.ecx), ecx := 0,
       mem := m)
  }

  /** The register changes of a whole repeated store that ends with memory m. */
  function Filled(s: Cpu, m: seq<Byte>): Cpu
  {
    s.(eip := Wrap(s.eip as int + 2), edi := Wrap(s.edi as int + s.ecx), ecx := 0, mem := m)
  }

  lemma MovedNothing(s: Cpu)
    requires Machine(s)
    requires s.ecx == 0
    ensures Moved(s, s.mem) == s.(eip := Wrap(s.eip as int + 2))
  {
  }

  lemma MoveByteFields(s: Cpu)
    requires Machine(s)
    requires s.ecx > 0
    requires s.edi + s.ecx <= 0x1_0000_0000 && s.esi + s.ecx <= 0x1_0000_0000
    ensures var t := MoveByte(s);
            && t.eip == s.eip && t.ecx == s.ecx - 1
            && (t.ecx > 0 ==> t.edi == s.edi + 1 && t.esi == s.esi + 1)
            && t.mem == s.mem[s.edi := s.mem[s.esi]]
  {
  }

  lemma NextWrap(w: Word, n: Word)
    requires n > 0
    ensures Wrap(Next(w) as int + (n as int - 1)) == Wrap(w as int + n)
  {
    assert Next(w) == if w as int + 1 == 0x1_0000_0000 then 0 else w as int + 1;
  }

  lemma MovedStep(s: Cpu, m: seq<Byte>)
    requires Machine(s)
    requires s.ecx > 0
    ensures Moved(MoveByte(s), m) == Moved(s, m)
  {
    hide Wrap, Next;
    NextWrap(s.esi, s.ecx);
    NextWrap(s.edi, s.ecx);
    WrapBelow(s.ecx as int - 1);
  }

  lemma MovedBytes(s: Cpu, m: seq<Byte>)
    requires Machine(s)
    requires s.ecx > 0
    requires s.edi + s.ecx <= 0x1_0000_0000 && s.esi + s.ecx <= 0x1_0000_0000
    requires Apart(s.edi, s.edi + s.ecx, s.esi, s.esi + s.ecx)
    requires |m| == |s.mem|
    requires forall k :: s.edi < k < s.edi + s.ecx ==> m[k] == s.mem[s.edi := s.mem[s.esi]][s.esi + (k - s.edi)]
    requires forall k :: 0 <= k < |m| && !(s.edi < k < s.edi + s.ecx) ==> m[k] == s.mem[s.edi := s.mem[s.esi]][k]
    ensures forall k :: s.edi <= k < s.edi + s.ecx ==> m[k] == s.mem[s.esi + (k - s.edi)]
    ensures forall k :: 0 <= k < |m| && !(s.edi <= k < s.edi + s.ecx) ==> m[k] == s.mem[k]
  {
    forall k | s.edi <= k < s.edi + s.ecx
      ensures m[k] == s.mem[s.esi + (k - s.edi)]
    {
      if k > s.edi {
        assert s.esi + (k - s.edi) != s.edi;
      }
    }
  }

  /** REP MOVSB copies ECX bytes, provided it overwrites neither its source nor itself. */
  lemma {:induction false} RunMovsb(s: Cpu) returns (m: seq<Byte>)
    requires Machine(s)
    requires s.eip + 2 <= 0x1_0000_0000 && Decode(s.mem, s.eip) == Some(RepMovsb)
    requires s.edi + s.ecx <= 0x1_0000_0000 && s.esi + s.ecx <= 0x1_0000_0000
    requires s.ecx == 0 || Apart(s.edi, s.edi + s.ecx, s.eip, s.eip + 2)
    requires s.ecx == 0 || Apart(s.edi, s.edi + s.ecx, s.esi, s.esi + s.ecx)
    ensures |m| == |s.mem|
    ensures forall k :: s.edi <= k < s.edi + s.ecx ==> m[k] == s.mem[s.esi + (k - s.edi)]
    ensures forall k :: 0 <= k < |m| && !(s.edi <= k < s.edi + s.ecx) ==> m[k] == s.mem[k]
    ensures Run(s, s.ecx + 1) == Some(Moved(s, m))
    decreases s.ecx
  {
    hide Step, Decode, Run, MoveByte, Moved;
    StepMovsb(s);
    if s.ecx == 0 {
      m := s.mem;
      MovedNothing(s);
      RunStep(s, Moved(s, m), 0);
      RunNothing(Moved(s, m));
    } else {
      var t := MoveByte(s);
      RunStep(s, t, s.ecx);
      MoveByteFields(s);
      DecodeKept(s.mem, t.mem, s.eip, RepMovsb);
      m := RunMovsb(t);
      MovedStep(s, m);
      MovedBytes(s, m);
    }
  }

  lemma FilledNothing(s: Cpu)
    requires Machine(s)
    requires s.ecx == 0
    ensures Filled(s, s.mem) == s.(eip := Wrap(s.eip as int + 2))
  {
  }

  lemma StoreByteFields(s: Cpu)
    requires Machine(s)
    requires s.ecx > 0 && s.eax == 0
    requires s.edi + s.ecx <= 0x1_0000_0000
    ensures var t := StoreByte(s);
            && t.eip == s.eip && t.eax == 0 && t.ecx == s.ecx - 1
            && (t.ecx > 0 ==> t.edi == s.edi + 1)
            && t.mem == s.mem[s.edi := 0]
  {
  }

  lemma FilledStep(s: Cpu, m: seq<Byte>)
    requires Machine(s)
    requires s.ecx > 0
    ensures Filled(StoreByte(s), m) == Filled(s, m)
  {
    hide Wrap, Next;
    NextWrap(s.edi, s.ecx);
    WrapBelow(s.ecx as int - 1);
  }

  /** REP STOSB with EAX = 0 zeroes ECX bytes, provided it does not overwrite itself. */
  lemma {:induction false} RunStosb(s: Cpu) returns (m: seq<Byte>)
    requires Machine(s)
    requires s.eip + 2 <= 0x1_0000_0000 && Decode(s.mem, s.eip) == Some(RepStosb)
    requires s.eax == 0
    requires s.edi + s.ecx <= 0x1_0000_0000
    requires s.ecx == 0 || Apart(s.edi, s.edi + s.ecx, s.eip, s.eip + 2)
    ensures |m| == |s.mem|
    ensures forall k :: 0 <= k < |m| ==> m[k] == if s.edi <= k < s.edi + s.ecx then 0 else s.mem[k]
    ensures Run(s, s.ecx + 1) == Some(Filled(s, m))
    decreases s.ecx
  {
    hide Step, Decode, Run, StoreByte, Filled;
    StepStosb(s);
    if s.ecx == 0 {
      m := s.mem;
      FilledNothing(s);
      RunStep(s, Filled(s, m), 0);
      RunNothing(Filled(s, m));
    } else {
      var t := StoreByte(s);
      RunStep(s, t, s.ecx);
      StoreByteFields(s);
      DecodeKept(s.mem, t.mem, s.eip, RepStosb);
      m := RunStosb(t);
      FilledStep(s, m);
    }
  }

  /** A repeated move in a program in memory. */
  lemma RunMove(s: Cpu, prog: seq<Instr>) returns (t: Cpu)
    requires Machine(s)
    requires prog != [] && prog[0] == RepMovsb
    requires CodeAt(s.mem, s.eip, prog)
    requires s.edi + s.ecx <= 0x1_0000_0000 && s.esi + s.ecx <= 0x1_0000_0000
    requires s.ecx == 0 || Apart(s.edi, s.edi + s.ecx, s.eip, s.eip + |EncodeAll(prog)|)
    requires s.ecx == 0 || Apart(s.edi, s.edi + s.ecx, s.esi, s.esi + s.ecx)
    ensures Machine(t) && Reaches(s, t)
    ensures t == s.(eip := t.eip, esi := t.esi, edi := Wrap(s.edi as int + s.ecx), ecx := 0, mem := t.mem)
    ensures t.eip == s.eip + 2 && CodeAt(t.mem, t.eip, prog[1..])
    ensures forall k :: s.edi <= k < s.edi + s.ecx ==> t.mem[k] == s.mem[s.esi + (k - s.edi)]
    ensures forall k :: 0 <= k < |t.mem| && !(s.edi <= k < s.edi + s.ecx) ==> t.mem[k] == s.mem[k]
  {
    hide Step, Decode, Run;
    CodeHead(s.mem, s.eip, prog);
    var m := RunMovsb(s);
    CodeKept(s.mem, m, s.eip + 2, prog[1..]);
    WrapBelow(s.eip as int + 2);
    t := Moved(s, m);
  }

  /** A repeated store of zeros in a program in memory. */
  lemma RunStore(s: Cpu, prog: seq<Instr>) returns (t: Cpu)
    requires Machine(s)
    requires prog != [] && prog[0] == RepStosb
    requires CodeAt(s.mem, s.eip, prog)
    requires s.eax == 0
    requires s.edi + s.ecx <= 0x1_0000_0000
    requires s.ecx == 0 || Apart(s.edi, s.edi + s.ecx, s.eip, s.eip + |EncodeAll(prog)|)
    ensures Machine(t) && Reaches(s, t)
    ensures t == s.(eip := t.eip, edi := t.edi, ecx := 0, mem := t.mem)
    ensures t.eip == s.eip + 2 && CodeAt(t.mem, t.eip, prog[1..])
    ensures forall k :: 0 <= k < |t.mem| ==> t.mem[k] == if s.edi <= k < s.edi + s.ecx then 0 else s.mem[k]
  {
    hide Step, Decode, Run;
    CodeHead(s.mem, s.eip, prog);
    var m := RunStosb(s);
    CodeKept(s.mem, m, s.eip + 2, prog[1..]);
    WrapBelow(s.eip as int + 2);
    t := Filled(s, m);
  }

  /** The memory after copying and zero-filling a segment. */
  function LoadSegment(m: seq<Byte>, g: Segment): (r: seq<Byte>)
    requires g.src + g.len <= |m|
    ensures |r| == |m|
  {
    seq(|m|, k requires 0 <= k < |m| =>
      if g.target <= k < g.target + g.len then m[g.src + (k - g.target)]
      else if g.target + g.len <= k < g.target + g.len + g.fill then 0
      else m[k])
  }

  /** A segment that overwrites neither its own source nor the code from a to b. */
  ghost predicate Loadable(g: Segment, a: nat, b: nat)
  {
    && g.src + g.len <= 0x1_0000_0000
    && g.target + g.len + g.fill <= 0x1_0000_0000
    && (g.len + g.fill == 0 || Apart(g.target, g.target + g.len + g.fill, a, b))
    && (g.len == 0 || Apart(g.target, g.target + g.len, g.src, g.src + g.len))
  }

  lemma DropFirstLength(prog: seq<Instr>)
    requires Encodable(prog) && prog != []
    ensures Encodable(prog[1..])
    ensures |EncodeAll(prog)| == Length(prog[0]) + |EncodeAll(prog[1..])|
  {
  }

  lemma SegmentLength(g: Segment, rest: seq<Instr>)
    requires Encodable(rest)
    ensures Encodable(SegmentCode(g) + rest)
    ensures |EncodeAll(SegmentCode(g) + rest)| == 24 + |EncodeAll(rest)|
  {
    var prog := SegmentCode(g) + rest;
    assert forall k :: 6 <= k < |prog| ==> prog[k] == rest[k - 6];
    assert prog[1..][1..][1..][1..][1..][1..] == rest;
    DropFirstLength(prog);
    DropFirstLength(prog[1..]);
    DropFirstLength(prog[1..][1..]);
    DropFirstLength(prog[1..][1..][1..]);
    DropFirstLength(prog[1..][1..][1..][1..]);
    DropFirstLength(prog[1..][1..][1..][1..][1..]);
  }

  lemma LoadedBy(m: seq<Byte>, copied: seq<Byte>, filled: seq<Byte>, g: Segment)
    requires |m| == |copied| == |filled| == 0x1_0000_0000
    requires g.src + g.len <= |m| && g.target + g.len + g.fill <= |m|
    requires forall k :: g.target <= k < g.target + g.len ==> copied[k] == m[g.src + (k - g.target)]
    requires forall k :: 0 <= k < |m| && !(g.target <= k < g.target + g.len) ==> copied[k] == m[k]
    requires forall k :: 0 <= k < |m| ==>
               filled[k] == if g.fill > 0 && g.target + g.len <= k < g.target + g.len + g.fill then 0 else copied[k]
    ensures filled == LoadSegment(m, g)
  {
    forall k | 0 <= k < |m|
      ensures filled[k] == LoadSegment(m, g)[k]
    {
    }
  }

  /** The three moves in front: target, source and length. */
  lemma LoadOperands(s: Cpu, g: Segment, prog: seq<Instr>)
    requires Machine(s) && |prog| > 3 && CodeAt(s.mem, s.eip, prog)
    requires prog[0] == MovImm(7, g.target) && prog[1] == MovImm(6, g.src) && prog[2] == MovImm(1, g.len)
    ensures s.eip + 15 < 0x1_0000_0000
    ensures Reaches(s, s.(edi := g.target, esi := g.src, ecx := g.len, eip := s.eip + 15))
    ensures CodeAt(s.mem, s.eip + 15, prog[1..][1..][1..])
  {
    hide Step, Decode, Run, Reaches, CodeAt;
    RunMov(s, prog);
    var s1 := s.(edi := g.target, eip := s.eip + 5);
    RunMov(s1, prog[1..]);
    var s2 := s1.(esi := g.src, eip := s1.eip + 5);
    ReachesTrans(s, s1, s2);
    RunMov(s2, prog[1..][1..]);
    ReachesTrans(s, s2, s2.(ecx := g.len, eip := s2.eip + 5));
  }

  /** Running the code of one segment copies and zero-fills it and changes nothing else that matters. */
  lemma RunSegment(s: Cpu, g: Segment, rest: seq<Instr>) returns (t: Cpu)
    requires Machine(s)
    requires s.eax == 0
    requires Encodable(rest) && CodeAt(s.mem, s.eip, SegmentCode(g) + rest)
    requires Loadable(g, s.eip, s.eip + |EncodeAll(SegmentCode(g) + rest)|)
    ensures Machine(t) && Reaches(s, t)
    ensures t.eip == s.eip + 24 && CodeAt(t.mem, t.eip, rest)
    ensures t.eax == 0 && t.ebx == s.ebx
    ensures t.mem == LoadSegment(s.mem, g)
  {
    hide Step, Decode, Run, Reaches, CodeAt, Encode, EncodeAll;
    SegmentLength(g, rest);
    var prog := SegmentCode(g) + rest;
    var p1, p2, p3 := prog[1..], prog[1..][1..], prog[1..][1..][1..];
    var p4, p5, p6 := p3[1..], p3[1..][1..], p3[1..][1..][1..];
    assert prog[0] == MovImm(7, g.target) && p1[0] == MovImm(6, g.src) && p2[0] == MovImm(1, g.len)
        && p3[0] == RepMovsb && p4[0] == MovImm(1, g.fill) && p5[0] == RepStosb && p6 == rest;
    LoadOperands(s, g, prog);
    var s3 := s.(edi := g.target, esi := g.src, ecx := g.len, eip := s.eip + 15);
    DropFirstLength(prog);
    DropFirstLength(p1);
    DropFirstLength(p2);
    DropFirstLength(p3);
    DropFirstLength(p4);
    var s4 := RunMove(s3, p3);
    ReachesTrans(s, s3, s4);
    RunMov(s4, p4);
    var s5 := s4.(ecx := g.fill, eip := s4.eip + 5);
    ReachesTrans(s, s4, s5);
    assert g.fill > 0 ==> s5.edi == g.target + g.len;
    t := RunStore(s5, p5);
    ReachesTrans(s, s5, t);
    LoadedBy(s.mem, s4.mem, t.mem, g);
  }

  /** Every segment is copied from addresses below size. */
  ghost predicate SourcesBelow(segs: seq<Segment>, size: nat)
  {
    forall k :: 0 <= k < |segs| ==> segs[k].src + segs[k].len <= size
  }

  /** Loading segments in order. */
  ghost function LoadAll(m: seq<Byte>, segs: seq<Segment>): (r: seq<Byte>)
    requires SourcesBelow(segs, |m|)
    ensures |r| == |m|
    decreases |segs|
  {
    if segs == [] then m else LoadAll(LoadSegment(m, segs[0]), segs[1..])
  }

  lemma {:induction false} ProgramLength(segs: seq<Segment>, tail: seq<Instr>)
    requires Encodable(tail)
    ensures Encodable(SegmentsCode(segs) + tail)
    ensures |EncodeAll(SegmentsCode(segs) + tail)| == 24 * |segs| + |EncodeAll(tail)|
  {
    if segs == [] {
      assert SegmentsCode(segs) + tail == tail;
    } else {
      ProgramLength(segs[1..], tail);
      assert SegmentsCode(segs) + tail == SegmentCode(segs[0]) + (SegmentsCode(segs[1..]) + tail);
      SegmentLength(segs[0], SegmentsCode(segs[1..]) + tail);
    }
  }

  /** Running the code of all segments. */
  lemma {:induction false} RunSegments(s: Cpu, segs: seq<Segment>, tail: seq<Instr>) returns (t: Cpu)
    requires Machine(s)
    requires s.eax == 0
    requires Encodable(tail) && CodeAt(s.mem, s.eip, SegmentsCode(segs) + tail)
    requires SourcesBelow(segs, |s.mem|)
    requires forall k :: 0 <= k < |segs| ==> Loadable(segs[k], s.eip, s.eip + 24 * |segs| + |EncodeAll(tail)|)
    ensures Machine(t) && Reaches(s, t)
    ensures t.eip == s.eip + 24 * |segs| && CodeAt(t.mem, t.eip, tail)
    ensures t.eax == 0 && t.ebx == s.ebx
    ensures t.mem == LoadAll(s.mem, segs)
    decreases |segs|
  {
    hide Step, Decode, Run, LoadSegment, Reaches, Encode;
    if segs == [] {
      t := s;
      ReachesSelf(s);
      assert SegmentsCode(segs) + tail == tail;
    } else {
      var rest := SegmentsCode(segs[1..]) + tail;
      assert SegmentsCode(segs) + tail == SegmentCode(segs[0]) + rest;
      ProgramLength(segs[1..], tail);
      SegmentLength(segs[0], rest);
      var u := RunSegment(s, segs[0], rest);
      forall k | 0 <= k < |segs[1..]|
        ensures Loadable(segs[1..][k], u.eip, u.eip + 24 * |segs[1..]| + |EncodeAll(tail)|)
      {
        assert Loadable(segs[k + 1], s.eip, s.eip + 24 * |segs| + |EncodeAll(tail)|);
      }
      t := RunSegments(u, segs[1..], tail);
      ReachesTrans(s, u, t);
    }
  }

  lemma TailLength(entry: Word, magic: Word)
    ensures Encodable([MovImm(2, entry), MovImm(0, magic), JmpEdx])
    ensures |EncodeAll([MovImm(2, entry), MovImm(0, magic), JmpEdx])| == 12
  {
    var tail := [MovImm(2, entry), MovImm(0, magic), JmpEdx];
    assert tail[1..][1..][1..] == [];
    DropFirstLength(tail);
    DropFirstLength(tail[1..]);
    DropFirstLength(tail[1..][1..]);
  }

  /** The trampoline has 24 bytes for each segment and 12 more. */
  lemma TrampolineLength(segs: seq<Segment>, entry: Word, magic: Word)
    ensures Encodable(Program(segs, entry, magic))
    ensures |EncodeAll(Program(segs, entry, magic))| == 24 * |segs| + 12
  {
    TailLength(entry, magic);
    ProgramLength(segs, [MovImm(2, entry), MovImm(0, magic), JmpEdx]);
  }

  /** From s the processor gets to t: at the entry point, with the magic number in EAX and EBX unchanged. */
  ghost predicate Enters(s: Cpu, t: Cpu, entry: Word, magic: Word)
    requires Machine(s)
  {
    Machine(t) && Reaches(s, t) && t.eip == entry && t.eax == magic && t.ebx == s.ebx
  }

  lemma RunJmp(s: Cpu, prog: seq<Instr>)
    requires Machine(s)
    requires prog != [] && prog[0] == JmpEdx
    requires CodeAt(s.mem, s.eip, prog)
    ensures Reaches(s, s.(eip := s.edx))
  {
    hide Step, Decode, Run;
    CodeHead(s.mem, s.eip, prog);
    StepJmp(s);
    RunStep(s, s.(eip := s.edx), 0);
    RunNothing(s.(eip := s.edx));
    assert Run(s, 1) == Some(s.(eip := s.edx));
  }

  lemma RunTrampoline(s: Cpu, segs: seq<Segment>, entry: Word, magic: Word) returns (t: Cpu)
    requires Machine(s)
    requires s.eax == 0
    requires CodeAt(s.mem, s.eip, Program(segs, entry, magic))
    requires SourcesBelow(segs, |s.mem|)
    requires forall k :: 0 <= k < |segs| ==> Loadable(segs[k], s.eip, s.eip + 24 * |segs| + 12)
    ensures Enters(s, t, entry, magic) && t.mem == LoadAll(s.mem, segs)
  {
    hide Step, Decode, Run, LoadSegment, LoadAll, Reaches, CodeAt;
    var tail := [MovImm(2, entry), MovImm(0, magic), JmpEdx];
    TailLength(entry, magic);
    var u := RunSegments(s, segs, tail);
    RunMov(u, tail);
    var u1 := u.(edx := entry, eip := u.eip + 5);
    ReachesTrans(s, u, u1);
    RunMov(u1, tail[1..]);
    var u2 := u1.(eax := magic, eip := u1.eip + 5);
    ReachesTrans(s, u1, u2);
    t := u2.(eip := entry);
    RunJmp(u2, tail[1..][1..]);
    ReachesTrans(s, u2, t);
  }

  ghost predicate Loaded(m: seq<Byte>, segs: seq<Segment>, m': seq<Byte>)
  {
    SourcesBelow(segs, |m|) && m' == LoadAll(m, segs)
  }

  /** The whole trampoline, run with EAX = 0, loads all segments in order and enters the image. */
  lemma TrampolineRuns(s: Cpu, segs: seq<Segment>, entry: Word, magic: Word)
    requires Machine(s)
    requires s.eax == 0
    requires CodeAt(s.mem, s.eip, Program(segs, entry, magic))
    requires SourcesBelow(segs, |s.mem|)
    requires forall k :: 0 <= k < |segs| ==> Loadable(segs[k], s.eip, s.eip + 24 * |segs| + 12)
    ensures exists t: Cpu :: Enters(s, t, entry, magic) && Loaded(s.mem, segs, t.mem)
  {
    var t := RunTrampoline(s, segs, entry, magic);
  }

  /** The byte at a after loading: the last segment that covers a decides, else it is unchanged. */
  ghost function FinalByte(m: seq<Byte>, segs: seq<Segment>, a: nat): Byte
    requires a < |m|
    requires SourcesBelow(segs, |m|)
  {
    if segs == [] then m[a]
    else
      var g := segs[|segs| - 1];
      if g.target <= a < g.target + g.len then m[g.src + (a - g.target)]
      else if g.target + g.len <= a < g.target + g.len + g.fill then 0
      else FinalByte(m, segs[..|segs| - 1], a)
  }

  /** A segment whose source is in the file image from lo to hi and whose target is outside it. */
  ghost predicate FromImage(g: Segment, lo: nat, hi: nat)
  {
    && (g.len == 0 || (lo <= g.src && g.src + g.len <= hi))
    && (g.len + g.fill == 0 || Apart(g.target, g.target + g.len + g.fill, lo, hi))
  }

  lemma {:induction false} LoadLast(m: seq<Byte>, segs: seq<Segment>)
    requires segs != []
    requires SourcesBelow(segs, |m|)
    ensures LoadAll(m, segs) == LoadSegment(LoadAll(m, segs[..|segs| - 1]), segs[|segs| - 1])
    decreases |segs|
  {
    hide LoadSegment;
    if |segs| > 1 {
      var rest := segs[1..];
      LoadLast(LoadSegment(m, segs[0]), rest);
      assert rest[..|rest| - 1] == segs[..|segs| - 1][1..] && segs[..|segs| - 1][0] == segs[0];
    } else {
      assert segs[..0] == [] == segs[1..];
    }
  }

  lemma LoadedLast(m: seq<Byte>, before: seq<Byte>, g: Segment, lo: nat, hi: nat)
    requires |m| == |before| && hi <= |m|
    requires Same(m, before, lo, hi)
    requires g.src + g.len <= |m| && FromImage(g, lo, hi)
    ensures forall a :: g.target <= a < g.target + g.len && a < |m| ==>
              LoadSegment(before, g)[a] == m[g.src + (a - g.target)]
    ensures Same(m, LoadSegment(before, g), lo, hi)
  {
  }

  /** Loading in order is the same as letting the last covering segment decide each byte from the image. */
  lemma {:induction false} LoadedBytes(m: seq<Byte>, segs: seq<Segment>, lo: nat, hi: nat)
    requires |m| == 0x1_0000_0000 && hi <= |m|
    requires SourcesBelow(segs, |m|)
    requires forall k :: 0 <= k < |segs| ==> FromImage(segs[k], lo, hi)
    ensures forall a :: 0 <= a < |m| ==> LoadAll(m, segs)[a] == FinalByte(m, segs, a)
    ensures Same(m, LoadAll(m, segs), lo, hi)
    decreases |segs|
  {
    if segs != [] {
      var init, g := segs[..|segs| - 1], segs[|segs| - 1];
      LoadLast(m, segs);
      LoadedBytes(m, init, lo, hi);
      LoadedLast(m, LoadAll(m, init), g, lo, hi);
      forall a | 0 <= a < |m|
        ensures LoadAll(m, segs)[a] == FinalByte(m, segs, a)
      {
      }
    }
  }
}

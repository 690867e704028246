/** Far branches with an addend. The addend is added to the stub's address as well as to the value, so the
    branch enters the stub of another slot, or a stub behind its first instruction. */
module FarAddends {
  import opened Bits
  import opened Memory
  import opened Wrappers
  import opened PowerPC
  import opened ElfUtils
  import opened Relocation
  import opened Execution
  import opened LinkRun
  import opened WholeRun

  /** A far branch that is in place, about to be executed. */
  predicate AtFarCall(m: Mem, t: Table, op: Op, was: seq<byte>, i: nat, s: Cpu)
    requires t.InMemory() && |was| == 4
  {
    && op.link.Far() && InPlace(m, t, op, was, i)
    && RelativeBranch(op.link, WordOf(was)) && s.pc == op.link.Target()
  }

  /** The branch has arrived at x, through r11 and CTR. */
  function Arrived(s: Cpu, was: word, x: word): Cpu {
    s.(pc := x / 4 * 4, lr := LinkRegister(s, was), ctr := x, gpr := s.gpr[11 := x])
  }

  function Jumped(s: Cpu, was: word, pc: word): Cpu { s.(pc := pc / 4 * 4, lr := LinkRegister(s, was)) }

  /** Where the first step goes is word-aligned. */
  lemma EntryAligned(t: Table, i: nat, l: Link)
    requires t.InMemory() && i < t.length && l.Target() % 4 == 0 && StubInReach(t, i, l)
    ensures W(t.Slot(i) + l.addend) % 4 == 0
  {
    var p, a := l.Target(), W(t.Slot(i) + l.addend);
    var g := Sub(a, p);
    SignedMod4(g);
    GapMod4(a, p);
  }

  lemma InsideSlot(t: Table, i: nat, k: nat)
    requires t.InMemory() && i < t.length && k < 20
    ensures W(t.Slot(i) + k) == t.Slot(i) + k
  {
  }

  lemma FirstStep(m: Mem, t: Table, op: Op, was: seq<byte>, i: nat, s: Cpu) returns (s1: Cpu)
    requires t.InMemory() && |was| == 4 && AtFarCall(m, t, op, was, i, s)
    ensures i < t.length && s1 == s.(pc := W(t.Slot(i) + op.link.addend), lr := LinkRegister(s, WordOf(was)))
    ensures Step(m, s) == Some(s1) && s1.pc % 4 == 0
    ensures 0 <= op.link.addend < 20 ==> s1.pc == t.Slot(i) + op.link.addend
  {
    hide Execute, WordOf, WordBytes, GetBytes, LinkRegister, WithDisplacement24, Step, Opcode, Absolute, StubDistance;
    FarBranchStep(m, t, op, was, i, s);
    EntryAligned(t, i, op.link);
    if 0 <= op.link.addend < 20 { InsideSlot(t, i, op.link.addend); }
    s1 := s.(pc := W(t.Slot(i) + op.link.addend), lr := LinkRegister(s, WordOf(was)));
  }

  /** With an addend of 20 bytes for each slot, the branch goes through the stub of another slot to that
      stub's value; it works exactly if that is S + A, and aligned. */
  lemma OtherSlotRuns(m: Mem, t: Table, op: Op, was: seq<byte>, i: nat, j: nat, v: word, s: Cpu)
    requires t.InMemory() && |was| == 4 && AtFarCall(m, t, op, was, i, s)
    requires j < t.length && HoldsStub(m, t, j, v) && op.link.addend == 20 * (j - i)
    ensures Run(m, s, 5) == Some(Arrived(s, WordOf(was), v))
    ensures BranchWorks(m, op.link, WordOf(was), s) <==> op.link.Value() % 4 == 0 && v == op.link.Value()
  {
    hide Run, WordOf, LinkRegister, HoldsStub, InPlace, Opcode, Absolute, Link.Far, Link.Target, StubInReach;
    var s1 := FirstStep(m, t, op, was, i, s);
    assert s1.pc == t.Slot(j);
    StubFollows(m, t, j, v, s1);
    RunThen(m, s, s1, 4);
    var u := op.link.Value();
    assert s.gpr[11 := v][11] == v && s.gpr[11 := u][11] == u;
  }

  // ----- late entry -----

  /** The words of the stub of a far branch, and the status behind them. */
  lemma StubInMemory(m: Mem, t: Table, op: Op, was: seq<byte>, i: nat, s: Cpu)
    requires t.InMemory() && |was| == 4 && AtFarCall(m, t, op, was, i, s)
    ensures i < t.length
    ensures GetWord(m, t.Slot(i) + 4) == OrLow(op.link.Value()) && GetWord(m, t.Slot(i) + 8) == 0x7D6903A6
    ensures GetWord(m, t.Slot(i) + 12) == 0x4E800420 && GetWord(m, t.Slot(i) + 16) == op.mark
  {
    hide GetBytes, StubBytes, WordBytes, WordOf, WithDisplacement24, StubInReach, GetWord, OrLow, LoadHigh, Status,
         RelativeBranch;
    var v := op.link.Value();
    GetPart(m, t.Slot(i), 20, 0, 16);
    assert Plus(t.Slot(i), 0) == t.Slot(i);
    assert Entry(m, t, i)[0..16] == StubBytes(v);
    StubWords(m, t.Slot(i), v);
    var stub := Stub(v);
    assert stub[1] == OrLow(v) && stub[2] == 0x7D6903A6 && stub[3] == 0x4E800420;
    assert Entry(m, t, i)[16..] == WordBytes(op.mark);
    EntryStatus(m, t, i);
    WordRoundTrip(op.mark);
    StatusIsWord(m, t, i);
  }

  lemma StatusIsWord(m: Mem, t: Table, i: nat)
    requires t.InMemory() && i < t.length
    ensures Status(m, t, i) == GetWord(m, t.Slot(i) + 16)
  {
  }

  lemma RunOrLowAny(m: Mem, s: Cpu, v: word)
    requires s.pc % 4 == 0 && GetWord(m, s.pc) == OrLow(v)
    ensures var x := OrImmediate(s.gpr[11], v % 0x1_0000);
            Step(m, s) == Some(s.(pc := Plus(s.pc, 4), gpr := s.gpr[11 := x]))
  {
    hide OrLow, And, Or, GetWord;
    DecodeOrLow(v);
  }

  /** The last two instructions of a stub. */
  lemma TailRuns(m: Mem, s: Cpu)
    requires s.pc % 4 == 0 && s.pc + 4 < 0x1_0000_0000
    requires GetWord(m, s.pc) == 0x7D6903A6 && GetWord(m, s.pc + 4) == 0x4E800420
    ensures Run(m, s, 2) == Some(s.(pc := s.gpr[11] / 4 * 4, ctr := s.gpr[11]))
  {
    hide Execute, GetWord, Step;
    var s1 := s.(pc := s.pc + 4, ctr := s.gpr[11]);
    RunMoveToCtr(m, s);
    RunBranchToCtr(m, s1);
    OneStep(m, s1);
    RunThen(m, s, s1, 1);
  }

  /** An addend of 4: the stub is entered at its second instruction, and the branch arrives at r11 with the
      low half of the value or-ed in. */
  lemma SecondWordRuns(m: Mem, t: Table, op: Op, was: seq<byte>, i: nat, s: Cpu)
    requires t.InMemory() && |was| == 4 && AtFarCall(m, t, op, was, i, s) && op.link.addend == 4
    ensures Run(m, s, 4) == Some(Arrived(s, WordOf(was), OrImmediate(s.gpr[11], op.link.Value() % 0x1_0000)))
  {
    hide Run, Step, WordOf, LinkRegister, AtFarCall, GetWord, W, OrImmediate, OrLow;
    var s1 := FirstStep(m, t, op, was, i, s);
    StubInMemory(m, t, op, was, i, s);
    assert s1.pc == t.Slot(i) + 4;
    RunOrLowAny(m, s1, op.link.Value());
    var s2 := Step(m, s1).value;
    assert s2.pc == t.Slot(i) + 8;
    TailRuns(m, s2);
    RunThen(m, s1, s2, 2);
    RunThen(m, s, s1, 3);
  }

  /** An addend of 8: it arrives at what r11 held. */
  lemma ThirdWordRuns(m: Mem, t: Table, op: Op, was: seq<byte>, i: nat, s: Cpu)
    requires t.InMemory() && |was| == 4 && AtFarCall(m, t, op, was, i, s) && op.link.addend == 8
    ensures Run(m, s, 3) == Some(Arrived(s, WordOf(was), s.gpr[11]))
  {
    hide Run, Step, WordOf, LinkRegister, AtFarCall, GetWord, W;
    var s1 := FirstStep(m, t, op, was, i, s);
    StubInMemory(m, t, op, was, i, s);
    assert s1.pc == t.Slot(i) + 8;
    TailRuns(m, s1);
    RunThen(m, s, s1, 2);
    assert s.gpr[11 := s.gpr[11]] == s.gpr;
  }

  /** An addend of 12: it arrives at what CTR held. */
  lemma FourthWordRuns(m: Mem, t: Table, op: Op, was: seq<byte>, i: nat, s: Cpu)
    requires t.InMemory() && |was| == 4 && AtFarCall(m, t, op, was, i, s) && op.link.addend == 12
    ensures Run(m, s, 2) == Some(Jumped(s, WordOf(was), s.ctr))
  {
    hide Run, Step, WordOf, LinkRegister, AtFarCall, GetWord, W;
    var s1 := FirstStep(m, t, op, was, i, s);
    StubInMemory(m, t, op, was, i, s);
    assert s1.pc == t.Slot(i) + 12;
    RunBranchToCtr(m, s1);
    OneStep(m, s1);
    RunThen(m, s, s1, 1);
  }

  lemma NoInstruction(m: Mem, s: Cpu)
    requires s.pc % 4 == 0 && GetWord(m, s.pc) < 4
    ensures Step(m, s) == None
  {
    hide Extended, SpecialRegister, FieldT, FieldA, Immediate, BO, Taken, GetWord;
    assert Opcode(GetWord(m, s.pc)) == 0;
  }

  /** An addend of 16: it arrives at the status of the slot, which is no instruction. */
  lemma StatusRuns(m: Mem, t: Table, op: Op, was: seq<byte>, i: nat, s: Cpu)
    requires t.InMemory() && |was| == 4 && AtFarCall(m, t, op, was, i, s)
    requires op.link.addend == 16 && op.mark < 4
    ensures Run(m, s, 2) == None
  {
    hide Run, Step, WordOf, LinkRegister, AtFarCall, GetWord, W;
    var s1 := FirstStep(m, t, op, was, i, s);
    StubInMemory(m, t, op, was, i, s);
    assert s1.pc == t.Slot(i) + 16;
    NoInstruction(m, s1);
    OneStep(m, s1);
    RunThen(m, s, s1, 1);
  }
}

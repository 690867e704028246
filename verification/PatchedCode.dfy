/** Conditional branches and split immediates after a run: what the patched instructions compute. */
module PatchedCode {
  import opened Bits
  import opened Memory
  import opened Wrappers
  import opened PowerPC
  import opened ElfUtils
  import opened Relocation
  import opened Execution
  import opened LinkRun

  // ----- conditional branches -----

  /** The parts of a B-form word: opcode and BO0-2, BO3, BO4 and BI, BD, AA and LK. */
  lemma BranchParts(q: nat, t: nat, r: nat, l: nat)
    requires q < 0x200 && t < 2 && r < 0x40 && l < 0x1_0000
    ensures var w: word := (q * 0x80 + (t * 0x40 + r)) * 0x1_0000 + l;
            && Opcode(w) == q / 8
            && FieldT(w) == q % 8 * 4 + t * 2 + r / 32
            && FieldA(w) == r % 32
            && w % 0x1_0000 == l
  {
    var h := q * 0x80 + (t * 0x40 + r);
    var w: word := h * 0x1_0000 + l;
    assert w / 0x1_0000 == h && w % 0x1_0000 == l;
    assert w / 0x20_0000 == h / 32;
    assert w / 0x400_0000 == h / 0x400;
    var u := t * 2 + r / 32;
    assert h / 32 == q * 4 + u;
    ShiftRegister(q, u);
    assert h % 32 == r % 32 by {
      assert h == 32 * (q * 4 + t * 2) + r;
    }
  }

  lemma ShiftRegister(q: nat, u: nat)
    requires u < 4
    ensures (q * 4 + u) % 32 == q % 8 * 4 + u
    ensures (q * 4 + u) / 32 == q / 8
  {
    var a, b := q / 8, q % 8;
    assert q * 4 + u == 32 * a + (b * 4 + u);
  }

  /** The fields above the displacement. */
  lemma DecodeHigh14(w: word, d: int)
    requires d % 4 == 0 && -0x8000 <= d < 0x8000
    ensures var r := WithDisplacement14(w, d);
            && Opcode(r) == Opcode(w) && FieldA(r) == FieldA(w)
            && FieldT(r) == FieldT(w) - (if BO(w, 3) then 2 else 0)
  {
    hide WithDisplacement14, Opcode, FieldT, FieldA;
    var q, t, b, l := w / 0x80_0000, w / 0x40_0000 % 2, w / 0x1_0000 % 0x40, w % 0x1_0000;
    SplitBranch14(w);
    BranchParts(q, t, b, l);
    AsParts14(w, d);
    FieldAligned(d);
    BranchParts(q, 0, b, d % 0x1_0000 + w % 4);
    BO3Bit(q, t, b);
  }

  /** The displacement and the two bits below it. */
  lemma DecodeLow14(w: word, d: int)
    requires d % 4 == 0 && -0x8000 <= d < 0x8000
    ensures var r := WithDisplacement14(w, d); r % 4 == w % 4 && Displacement14(r) == d
  {
    hide WithDisplacement14;
    var f, h := d % 0x1_0000, w / 0x80_0000 * 0x80 + w / 0x1_0000 % 0x40;
    AsParts14(w, d);
    FieldAligned(d);
    LowPart(f, w % 4);
    LowBits(h, f + w % 4);
    LowHalf(h, f + w % 4);
    assert f == if d < 0 then d + 0x1_0000 else d;
  }

  lemma LowHalf(h: nat, l: nat)
    requires l < 0x1_0000
    ensures (h * 0x1_0000 + l) % 0x1_0000 == l
  {
  }

  /** Patching a conditional branch keeps the opcode, BI, AA, LK and every BO bit but BO3, which is
      cleared; the displacement reads back. */
  lemma Decode14(w: word, d: int)
    requires d % 4 == 0 && -0x8000 <= d < 0x8000
    ensures var r := WithDisplacement14(w, d);
            && Opcode(r) == Opcode(w) && FieldA(r) == FieldA(w)
            && r % 4 == w % 4
            && Displacement14(r) == d
            && FieldT(r) == FieldT(w) - (if BO(w, 3) then 2 else 0)
  {
    hide WithDisplacement14, Opcode, FieldT, FieldA, BO, Displacement14;
    DecodeHigh14(w, d);
    DecodeLow14(w, d);
  }

  lemma AsParts14(w: word, d: int)
    requires d % 4 == 0 && -0x8000 <= d < 0x8000
    ensures WithDisplacement14(w, d) ==
            (w / 0x80_0000 * 0x80 + (0 * 0x40 + w / 0x1_0000 % 0x40)) * 0x1_0000 + (d % 0x1_0000 + w % 4)
  {
    FieldAligned(d);
  }

  lemma FieldAligned(d: int)
    requires d % 4 == 0 && -0x8000 <= d < 0x8000
    ensures d % 0x1_0000 / 4 * 4 == d % 0x1_0000 <= 0xFFFC
  {
    if d < 0 { Multiple4(0x4000, d); }
  }

  lemma LowPart(f: nat, x: nat)
    requires f / 4 * 4 == f && x < 4
    ensures (f + x) % 4 == x && (f + x) / 4 * 4 == f
  {
    Multiple4(f / 4, x);
  }

  lemma BO3Bit(q: nat, t: nat, b: nat)
    requires t < 2 && b < 0x40
    ensures (q % 8 * 4 + t * 2 + b / 32) / 2 % 2 == t
  {
    var c := b / 32;
    assert (q % 8 * 4 + t * 2 + c) / 2 == q % 8 * 2 + t;
  }

  /** The five bits of a BO field. */
  lemma BOBits(a: nat, t: nat, c: nat)
    requires t < 2 && c < 2
    ensures (4 * a + 2 * t + c) % 2 == c && (4 * a + 2 * t + c) / 2 % 2 == t
    ensures (4 * a + 2 * t + c) / 4 == a
  {
    assert (4 * a + 2 * t + c) / 2 == 2 * a + t;
  }

  lemma ClearBit1(x: nat, y: nat)
    requires y == x - (if x / 2 % 2 == 1 then 2 else 0)
    ensures y / 4 == x / 4 && y % 2 == x % 2 && y / 2 % 2 == 0
  {
    var a, t, c := x / 4, x / 2 % 2, x % 2;
    assert x == 4 * a + 2 * t + c && y == 4 * a + 2 * 0 + c;
    BOBits(a, t, c);
    BOBits(a, 0, c);
  }

  lemma BOValues(w: word)
    ensures BO(w, 0) == (FieldT(w) / 4 / 4 % 2 == 1) && BO(w, 1) == (FieldT(w) / 4 / 2 % 2 == 1)
    ensures BO(w, 2) == (FieldT(w) / 4 % 2 == 1) && BO(w, 3) == (FieldT(w) / 2 % 2 == 1)
    ensures BO(w, 4) == (FieldT(w) % 2 == 1)
  {
    hide FieldT;
  }

  /** The BO bits after patching. */
  lemma PatchedBO(w: word, r: word)
    requires FieldT(r) == FieldT(w) - (if BO(w, 3) then 2 else 0)
    ensures BO(r, 0) == BO(w, 0) && BO(r, 1) == BO(w, 1) && BO(r, 2) == BO(w, 2) && BO(r, 4) == BO(w, 4)
    ensures !BO(r, 3)
  {
    hide FieldT, BO;
    BOValues(w);
    BOValues(r);
    ClearBit1(FieldT(w), FieldT(r));
  }

  /** The patch keeps the branch condition for every processor state exactly when BO does not test CTR
      for zero: bit 2 (leave CTR alone) is set, or bit 3 was already clear. */
  lemma ConditionKept(w: word, d: int)
    requires d % 4 == 0 && -0x8000 <= d < 0x8000
    ensures (forall s: Cpu :: Taken(s, WithDisplacement14(w, d)) == Taken(s, w)) <==> BO(w, 2) || !BO(w, 3)
    ensures forall s: Cpu :: CountRegister(s, WithDisplacement14(w, d)) == CountRegister(s, w)
  {
    hide FieldT, WithDisplacement14, BO;
    var r := WithDisplacement14(w, d);
    Decode14(w, d);
    PatchedBO(w, r);
    if !BO(w, 2) && BO(w, 3) {
      var s := Cpu(0, 0, 1, seq(32, (i: nat) => 0), seq(32, (i: nat) => BO(w, 1)));
      assert Taken(s, w) && !Taken(s, r);
    }
  }

  /** A conditional branch that is in place goes to S + A when its condition holds and falls through
      otherwise, provided BO does not test CTR for zero. */
  lemma ConditionalInPlace(m: Mem, t: Table, op: Op, was: seq<byte>, i: nat, s: Cpu)
    requires t.InMemory() && |was| == 4 == op.link.Width() && InPlace(m, t, op, was, i)
    requires op.link.kind == R_PPC_REL14 && s.pc == op.link.Target() && s.pc % 4 == 0
    requires var w := WordOf(was); Opcode(w) == 16 && !Absolute(w) && (BO(w, 2) || !BO(w, 3))
    ensures var w := WordOf(was);
            Step(m, s) == Some(s.(pc := if Taken(s, w) then op.link.Value() else Plus(s.pc, 4),
                                  lr := LinkRegister(s, w), ctr := CountRegister(s, w)))
  {
    hide WordOf, WordBytes, GetBytes, WithDisplacement14, WithDisplacement24, Step, Taken, CountRegister, BO, FieldT,
         Opcode, Absolute, LinkRegister;
    var l := op.link;
    WordRoundTrip(WithDisplacement14(WordOf(was), l.Distance()));
    ConditionalBranchRuns(m, s, WordOf(was), l.Distance());
    ReachesTarget(s.pc, l.Value());
  }

  /** So it does after a successful run. */
  lemma ConditionalBranchReaches(m: Mem, t: Table, ops: seq<Op>, i: nat, s: Cpu)
    requires t.InMemory() && Separate(t, ops) && RunLinks(m, t, ops).ok && i < |ops|
    requires ops[i].link.kind == R_PPC_REL14 && s.pc == ops[i].link.Target() && s.pc % 4 == 0
    requires var was := GetWord(m, s.pc); Opcode(was) == 16 && !Absolute(was) && (BO(was, 2) || !BO(was, 3))
    ensures var was := GetWord(m, s.pc);
            Step(RunLinks(m, t, ops).mem, s) ==
            Some(s.(pc := if Taken(s, was) then ops[i].link.Value() else Plus(s.pc, 4),
                    lr := LinkRegister(s, was), ctr := CountRegister(s, was)))
  {
    hide RunLinks, WordOf, GetBytes, SlotOf, Step, Taken, CountRegister, BO, Opcode, Absolute, LinkRegister, InPlace;
    RunImage(m, t, ops, i);
    ConditionalInPlace(RunLinks(m, t, ops).mem, t, ops[i], GetBytes(m, s.pc, 4), SlotOf(m, t, ops, i), s);
  }

  lemma ConditionalBranchRuns(m: Mem, s: Cpu, was: word, d: int)
    requires s.pc % 4 == 0 && Opcode(was) == 16 && !Absolute(was) && (BO(was, 2) || !BO(was, 3))
    requires d % 4 == 0 && -0x8000 <= d < 0x8000
    requires GetWord(m, s.pc) == WithDisplacement14(was, d)
    ensures Step(m, s) == Some(s.(pc := if Taken(s, was) then W(s.pc + d) else Plus(s.pc, 4),
                                  lr := LinkRegister(s, was), ctr := CountRegister(s, was)))
  {
    hide GetWord, Taken, CountRegister, BO, FieldT, WithDisplacement14, Displacement14;
    Decode14(was, d);
    FlagsOfLowBits(was, WithDisplacement14(was, d));
    ConditionKept(was, d);
  }

  // ----- split immediates -----

  /** The halfword at p + 2 is the immediate of the instruction at p. */
  lemma ImmediateAt(m: Mem, p: word, h: half)
    requires GetBytes(m, Plus(p, 2), 2) == HalfBytes(h)
    ensures Immediate(GetWord(m, p)) == h
  {
    GetPart(m, p, 4, 2, 2);
    assert GetBytes(m, p, 4)[2..4] == GetBytes(m, p, 4)[2..];
    HalvesOfWord(GetBytes(m, p, 4), h);
  }

  /** High-adjusted and low halves add up. */
  lemma HaLoSum(x: word)
    ensures W(W(SignExtend16(Ha(x)) * 0x1_0000) + SignExtend16(Lo(x))) == x
  {
    var h, l := x / 0x1_0000, x % 0x1_0000;
    var a: half := Ha(x);
    assert W(SignExtend16(a) * 0x1_0000) == a * 0x1_0000;
    if l >= 0x8000 {
      assert a == if h == 0xFFFF then 0 else h + 1;
    } else {
      assert a == h;
    }
  }

  /** lis rT, ha(x) at p and, later, addi rD, rT, lo(x) at q: rD is x. */
  lemma HaLoPair(m: Mem, p: word, q: word, x: word, s: Cpu, s': Cpu)
    requires p % 4 == 0 && q % 4 == 0 && s.pc == p && s'.pc == q
    requires GetBytes(m, Plus(p, 2), 2) == HalfBytes(Ha(x)) && GetBytes(m, Plus(q, 2), 2) == HalfBytes(Lo(x))
    requires Opcode(GetWord(m, p)) == 15 && FieldA(GetWord(m, p)) == 0
    requires Opcode(GetWord(m, q)) == 14 && FieldA(GetWord(m, q)) == FieldT(GetWord(m, p)) != 0
    requires s'.gpr[FieldT(GetWord(m, p))] == Step(m, s).value.gpr[FieldT(GetWord(m, p))]
    ensures Step(m, s').value.gpr[FieldT(GetWord(m, q))] == x
  {
    hide Ha, Lo, Immediate, FieldT, FieldA, GetWord, HalfBytes, SignExtend16;
    ImmediateAt(m, p, Ha(x));
    ImmediateAt(m, q, Lo(x));
    HaLoSum(x);
  }

  /** lis rT, hi(x) at p and, later, ori rD, rT, lo(x) at q: rD is x. */
  lemma HiLoPair(m: Mem, p: word, q: word, x: word, s: Cpu, s': Cpu)
    requires p % 4 == 0 && q % 4 == 0 && s.pc == p && s'.pc == q
    requires GetBytes(m, Plus(p, 2), 2) == HalfBytes(Hi(x)) && GetBytes(m, Plus(q, 2), 2) == HalfBytes(Lo(x))
    requires Opcode(GetWord(m, p)) == 15 && FieldA(GetWord(m, p)) == 0
    requires Opcode(GetWord(m, q)) == 24 && FieldT(GetWord(m, q)) == FieldT(GetWord(m, p))
    requires s'.gpr[FieldT(GetWord(m, p))] == Step(m, s).value.gpr[FieldT(GetWord(m, p))]
    ensures Step(m, s').value.gpr[FieldA(GetWord(m, q))] == x
  {
    hide Immediate, FieldT, FieldA, GetWord, HalfBytes, SignExtend16, And, Or;
    ImmediateAt(m, p, Hi(x));
    ImmediateAt(m, q, Lo(x));
    HighHalf(Hi(x));
    AndZero(Lo(x));
  }

  lemma HighHalf(h: half)
    ensures W(SignExtend16(h) * 0x1_0000) == (h as nat) * 0x1_0000
  {
  }

  /** The value whose halves a 16-bit relocation writes: S + A, or S + A - P for the GHS_REL16 kinds. */
  function HalfSource(l: Link): word {
    if l.kind == R_PPC_GHS_REL16_HA || l.kind == R_PPC_GHS_REL16_HI || l.kind == R_PPC_GHS_REL16_LO
    then l.RelValue() else l.Value()
  }

  /** What a 16-bit relocation in place has written. */
  lemma HalfInPlace(m: Mem, t: Table, op: Op, was: seq<byte>, i: nat)
    requires t.InMemory() && |was| == op.link.Width() == 2 && InPlace(m, t, op, was, i)
    ensures GetBytes(m, op.link.Target(), 2) ==
            HalfBytes(if op.link.kind == R_PPC_ADDR16_HA
                || op.link.kind == R_PPC_GHS_REL16_HA then Ha(HalfSource(op.link))
                      else if op.link.kind == R_PPC_ADDR16_HI || op.link.kind == R_PPC_GHS_REL16_HI
                      then Hi(HalfSource(op.link))
                      else Lo(HalfSource(op.link)))
  {
    hide HalfBytes, Ha, Hi, Lo, GetBytes;
  }

  /** The halves of one split immediate, high-adjusted or not. */
  predicate IsPair(high: byte, low: byte, adjusted: bool) {
    var (absolute, relative) :=
      if adjusted then (R_PPC_ADDR16_HA, R_PPC_GHS_REL16_HA) else (R_PPC_ADDR16_HI, R_PPC_GHS_REL16_HI);
    (high == absolute && low == R_PPC_ADDR16_LO) || (high == relative && low == R_PPC_GHS_REL16_LO)
  }

  /** An addis/addi pair patched by a run with the HA and LO halves of the same value computes it. For the
      GHS_REL16 kinds the value is relative to the two places, so the addends must make up for their
      distance. */
  lemma HaLoRecombine(m: Mem, t: Table, ops: seq<Op>, i: nat, j: nat, p: word, q: word, s: Cpu, s': Cpu)
    requires t.InMemory() && Separate(t, ops) && RunLinks(m, t, ops).ok && i < |ops| && j < |ops|
    requires (ops[i].link.kind == R_PPC_ADDR16_HA && ops[j].link.kind == R_PPC_ADDR16_LO) ||
             (ops[i].link.kind == R_PPC_GHS_REL16_HA && ops[j].link.kind == R_PPC_GHS_REL16_LO)
    requires ops[i].link.Target() == Plus(p, 2) && ops[j].link.Target() == Plus(q, 2)
    requires HalfSource(ops[i].link) == HalfSource(ops[j].link)
    requires p % 4 == 0 && q % 4 == 0 && s.pc == p && s'.pc == q
    requires var m' := RunLinks(m, t, ops).mem;
             && Opcode(GetWord(m', p)) == 15 && FieldA(GetWord(m', p)) == 0
             && Opcode(GetWord(m', q)) == 14 && FieldA(GetWord(m', q)) == FieldT(GetWord(m', p)) != 0
             && s'.gpr[FieldT(GetWord(m', p))] == Step(m', s).value.gpr[FieldT(GetWord(m', p))]
    ensures var m' := RunLinks(m, t, ops).mem;
            Step(m', s').value.gpr[FieldT(GetWord(m', q))] == HalfSource(ops[i].link)
  {
    hide RunLinks, Step, Opcode, FieldA, FieldT, GetWord, Ha, Lo, HalfBytes, SlotOf;
    RunImage(m, t, ops, i);
    RunImage(m, t, ops, j);
    HaLoPair(RunLinks(m, t, ops).mem, p, q, HalfSource(ops[i].link), s, s');
  }

  /** The same for a lis/ori pair and the HI and LO halves. */
  lemma HiLoRecombine(m: Mem, t: Table, ops: seq<Op>, i: nat, j: nat, p: word, q: word, s: Cpu, s': Cpu)
    requires t.InMemory() && Separate(t, ops) && RunLinks(m, t, ops).ok && i < |ops| && j < |ops|
    requires (ops[i].link.kind == R_PPC_ADDR16_HI && ops[j].link.kind == R_PPC_ADDR16_LO) ||
             (ops[i].link.kind == R_PPC_GHS_REL16_HI && ops[j].link.kind == R_PPC_GHS_REL16_LO)
    requires ops[i].link.Target() == Plus(p, 2) && ops[j].link.Target() == Plus(q, 2)
    requires HalfSource(ops[i].link) == HalfSource(ops[j].link)
    requires p % 4 == 0 && q % 4 == 0 && s.pc == p && s'.pc == q
    requires var m' := RunLinks(m, t, ops).mem;
             && Opcode(GetWord(m', p)) == 15 && FieldA(GetWord(m', p)) == 0
             && Opcode(GetWord(m', q)) == 24 && FieldT(GetWord(m', q)) == FieldT(GetWord(m', p))
             && s'.gpr[FieldT(GetWord(m', p))] == Step(m', s).value.gpr[FieldT(GetWord(m', p))]
    ensures var m' := RunLinks(m, t, ops).mem;
            Step(m', s').value.gpr[FieldA(GetWord(m', q))] == HalfSource(ops[i].link)
  {
    hide RunLinks, Step, Opcode, FieldA, FieldT, GetWord, Hi, Lo, HalfBytes, SlotOf;
    RunImage(m, t, ops, i);
    RunImage(m, t, ops, j);
    HiLoPair(RunLinks(m, t, ops).mem, p, q, HalfSource(ops[i].link), s, s');
  }

  /** Two GHS_REL16 places see the same relative value exactly when the difference of their addends is
      the difference of their addresses. */
  lemma RelativeSourcesAgree(l: Link, k: Link)
    requires l.symbolAddr == k.symbolAddr
    ensures l.RelValue() == k.RelValue() <==> W(k.addend - l.addend) == Sub(k.Target(), l.Target())
  {
    AddendGap(l.symbolAddr, l.addend, k.addend);
  }

  lemma AddendGap(x: word, a: sword, b: sword)
    ensures W(b - a) == Sub(W(x + b), W(x + a))
  {
    WrapDifference(x + b, x + a);
  }

}

/** What the patched instructions do when they are executed. */
module Execution {
  import opened Bits
  import opened Memory
  import opened Wrappers
  import opened PowerPC
  import opened ElfUtils
  import opened Relocation

  // ----- decoding what was patched -----

  /** Patching a displacement keeps the opcode, AA and LK, and the displacement reads back. */
  lemma Decode24(w: word, d: int)
    requires d % 4 == 0 && -0x200_0000 <= d < 0x200_0000
    ensures Opcode(WithDisplacement24(w, d)) == Opcode(w)
    ensures WithDisplacement24(w, d) % 4 == w % 4
    ensures Displacement24(WithDisplacement24(w, d)) == d
  {
    var h, f := w / 0x400_0000, d % 0x400_0000;
    var r := WithDisplacement24(w, d);
    assert f == if d < 0 then d + 0x400_0000 else d;
    assert f % 4 == 0 && f / 4 * 4 == f by {
      if d < 0 { Multiple4(0x100_0000, d); }
    }
    assert r == h * 0x400_0000 + (f + w % 4);
    assert r / 0x400_0000 == h;
    assert r % 0x400_0000 == f + w % 4;
    Multiple4(h * 0x100_0000 + f / 4, w % 4);
  }

  lemma FlagsOfLowBits(w: word, r: word)
    requires r % 4 == w % 4
    ensures Absolute(r) == Absolute(w) && Linking(r) == Linking(w)
  {
    LowFlags(w);
    LowFlags(r);
  }

  lemma LowFlags(w: word)
    ensures w / 2 % 2 == w % 4 / 2 && w % 2 == w % 4 % 2
  {
    var q, x := w / 4, w % 4;
    assert w == 4 * q + x;
    assert w / 2 == 2 * q + x / 2;
  }

  lemma ReachesTarget(p: word, v: word)
    ensures W(p + Signed(Sub(v, p))) == v
  {
  }

  /** A relative branch with a patched displacement takes it, and saves the return address as the
      unpatched instruction would. */
  lemma BranchRuns(m: Mem, s: Cpu, was: word, d: int)
    requires s.pc % 4 == 0
    requires Opcode(was) == 18 && !Absolute(was)
    requires d % 4 == 0 && -0x200_0000 <= d < 0x200_0000
    requires GetWord(m, s.pc) == WithDisplacement24(was, d)
    ensures Step(m, s) == Some(s.(pc := W(s.pc + d), lr := LinkRegister(s, was)))
  {
    var w := GetWord(m, s.pc);
    Decode24(was, d);
    FlagsOfLowBits(was, w);
  }

  // ----- the stub -----

  lemma DecodeLoadHigh(v: word)
    ensures Opcode(LoadHigh(v)) == 15 && FieldT(LoadHigh(v)) == 11 && FieldA(LoadHigh(v)) == 0
    ensures Immediate(LoadHigh(v)) == v / 0x1_0000
  {
    hide And, Or;
    var h := v / 0x1_0000;
    var w := LoadHigh(v);
    LoadHighValue(v);
    assert w / 0x1_0000 == 0x3D60 && w % 0x1_0000 == h;
    assert w / 0x20_0000 == 0x3D60 / 0x20;
    assert w / 0x400_0000 == 0x3D60 / 0x400;
  }

  lemma DecodeOrLow(v: word)
    ensures Opcode(OrLow(v)) == 24 && FieldT(OrLow(v)) == 11 && FieldA(OrLow(v)) == 11
    ensures Immediate(OrLow(v)) == v % 0x1_0000
  {
    hide And, Or;
    var l := v % 0x1_0000;
    var w := OrLow(v);
    OrLowValue(v);
    assert w / 0x1_0000 == 0x616B && w % 0x1_0000 == l;
    assert w / 0x20_0000 == 0x616B / 0x20;
    assert w / 0x400_0000 == 0x616B / 0x400;
  }

  lemma StubWords(m: Mem, a: word, v: word)
    requires a + 16 <= 0x1_0000_0000 && GetBytes(m, a, 16) == StubBytes(v)
    ensures forall k: nat :: k < 4 ==> GetWord(m, a + 4 * k) == Stub(v)[k]
  {
    forall k: nat | k < 4 ensures GetWord(m, a + 4 * k) == Stub(v)[k] {
      GetPart(m, a, 16, 4 * k, 4);
      assert StubBytes(v)[4 * k..4 * k + 4] == WordBytes(Stub(v)[k]);
      WordRoundTrip(Stub(v)[k]);
    }
  }

  /** lis r11, h: the low half is cleared. */
  lemma RunLoadHigh(m: Mem, s: Cpu, v: word)
    requires s.pc % 4 == 0 && GetWord(m, s.pc) == LoadHigh(v)
    ensures Step(m, s) == Some(s.(pc := Plus(s.pc, 4), gpr := s.gpr[11 := v / 0x1_0000 * 0x1_0000]))
  {
    hide LoadHigh;
    DecodeLoadHigh(v);
    var h := v / 0x1_0000;
    assert W(SignExtend16(h) * 0x1_0000) == h * 0x1_0000;
  }

  lemma RunOrLow(m: Mem, s: Cpu, v: word)
    requires s.pc % 4 == 0 && GetWord(m, s.pc) == OrLow(v) && s.gpr[11] == v / 0x1_0000 * 0x1_0000
    ensures Step(m, s) == Some(s.(pc := Plus(s.pc, 4), gpr := s.gpr[11 := v]))
  {
    hide OrLow, And, Or;
    DecodeOrLow(v);
    var x := OrImmediate(s.gpr[11], v % 0x1_0000);
    AndZero(v % 0x1_0000);
    assert x / 0x1_0000 == v / 0x1_0000 && x % 0x1_0000 == v % 0x1_0000;
  }

  lemma MoveToCtrFields()
    ensures Opcode(0x7D6903A6) == 31 && Extended(0x7D6903A6) == 467
    ensures SpecialRegister(0x7D6903A6) == 9 && FieldT(0x7D6903A6) == 11
  {
  }

  lemma RunMoveToCtr(m: Mem, s: Cpu)
    requires s.pc % 4 == 0 && GetWord(m, s.pc) == 0x7D6903A6
    ensures Step(m, s) == Some(s.(pc := Plus(s.pc, 4), ctr := s.gpr[11]))
  {
    hide Opcode, Extended, SpecialRegister, FieldT, FieldA, Immediate, GetWord, BO, Taken;
    MoveToCtrFields();
  }

  lemma BranchToCtrFields()
    ensures Opcode(0x4E800420) == 19 && Extended(0x4E800420) == 528 && !Linking(0x4E800420)
    ensures BO(0x4E800420, 0) && BO(0x4E800420, 2)
  {
  }

  lemma RunBranchToCtr(m: Mem, s: Cpu)
    requires s.pc % 4 == 0 && GetWord(m, s.pc) == 0x4E800420
    ensures Step(m, s) == Some(s.(pc := s.ctr / 4 * 4))
  {
    hide Opcode, Extended, SpecialRegister, FieldT, FieldA, Immediate, GetWord, BO, Linking;
    BranchToCtrFields();
  }

  /** A stub jumps to its value, through r11 and CTR. */
  lemma StubRuns(m: Mem, s: Cpu, v: word)
    requires s.pc % 4 == 0 && s.pc + 16 <= 0x1_0000_0000 && GetBytes(m, s.pc, 16) == StubBytes(v)
    ensures Run(m, s, 4) == Some(s.(pc := v / 4 * 4, ctr := v, gpr := s.gpr[11 := v]))
  {
    StubWords(m, s.pc, v);
    StubWordsRun(m, s, v);
  }

  lemma StubWordsRun(m: Mem, s: Cpu, v: word)
    requires s.pc % 4 == 0 && s.pc + 12 < 0x1_0000_0000
    requires GetWord(m, s.pc + 4 * 0) == LoadHigh(v) && GetWord(m, s.pc + 4 * 1) == OrLow(v)
    requires GetWord(m, s.pc + 4 * 2) == 0x7D6903A6 && GetWord(m, s.pc + 4 * 3) == 0x4E800420
    ensures Run(m, s, 4) == Some(s.(pc := v / 4 * 4, ctr := v, gpr := s.gpr[11 := v]))
  {
    hide Execute, LoadHigh, OrLow, GetWord;
    var s1 := s.(pc := s.pc + 4, gpr := s.gpr[11 := v / 0x1_0000 * 0x1_0000]);
    var s2 := s.(pc := s.pc + 8, gpr := s.gpr[11 := v]);
    var s3 := s2.(pc := s.pc + 12, ctr := v);
    assert Step(m, s) == Some(s1) by { RunLoadHigh(m, s, v); }
    assert s1.gpr[11 := v] == s2.gpr;
    assert Step(m, s1) == Some(s2) by { RunOrLow(m, s1, v); }
    assert Step(m, s2) == Some(s3) by { RunMoveToCtr(m, s2); }
    RunBranchToCtr(m, s3);
    RunSteps(m, s, s1, s2, s3);
  }

  lemma RunSteps(m: Mem, s: Cpu, s1: Cpu, s2: Cpu, s3: Cpu)
    requires Step(m, s) == Some(s1) && Step(m, s1) == Some(s2) && Step(m, s2) == Some(s3)
    ensures Run(m, s, 4) == Step(m, s3)
  {
    assert Run(m, s3, 1) == Step(m, s3);
    assert Run(m, s2, 2) == Run(m, s3, 1);
    assert Run(m, s1, 3) == Run(m, s2, 2);
  }
}

/** Assembled instructions and what executing them does: the instruction set of the model in numbers. */
module PowerPCForms {
  import opened Bits
  import opened Wrappers
  import opened PowerPC

  /** b .+0x100; bl .-4; ba 0x100 */
  lemma Branches(s: Cpu)
    ensures Execute(0x4800_0100, s) == Some(s.(pc := W(s.pc + 0x100)))
    ensures Execute(0x4BFF_FFFD, s) == Some(s.(pc := W(s.pc - 4), lr := W(s.pc + 4)))
    ensures Execute(0x4800_0102, s) == Some(s.(pc := 0x100))
  {
  }

  lemma ConditionalFields(w: word)
    requires w in {0x4182_0008, 0x4082_0008, 0x4200_0008, 0x4240_0008}
    ensures Opcode(w) == 16 && !Absolute(w) && !Linking(w) && Displacement14(w) == 8
    ensures FieldA(w) == if w == 0x4182_0008 || w == 0x4082_0008 then 2 else 0
    ensures BO(w, 0) == (w == 0x4200_0008 || w == 0x4240_0008) && BO(w, 1) == (w == 0x4182_0008)
    ensures BO(w, 2) == (w == 0x4182_0008 || w == 0x4082_0008) && BO(w, 3) == (w == 0x4240_0008)
  {
  }

  /** beq .+8 and bne .+8 test bit 2 of the condition register. */
  lemma ConditionBranches(s: Cpu)
    ensures Execute(0x4182_0008, s) == Some(s.(pc := if s.cr[2] then W(s.pc + 8) else W(s.pc + 4)))
    ensures Execute(0x4082_0008, s) == Some(s.(pc := if s.cr[2] then W(s.pc + 4) else W(s.pc + 8)))
  {
    hide Opcode, FieldA, FieldT, Absolute, Linking, BO, Displacement14;
    ConditionalFields(0x4182_0008);
    ConditionalFields(0x4082_0008);
  }

  /** bdnz .+8 and bdz .+8 count CTR down and test it for zero. */
  lemma CountBranches(s: Cpu)
    ensures var n := W(s.ctr - 1);
            && Execute(0x4200_0008, s) == Some(s.(pc := if n != 0 then W(s.pc + 8) else W(s.pc + 4), ctr := n))
            && Execute(0x4240_0008, s) == Some(s.(pc := if n == 0 then W(s.pc + 8) else W(s.pc + 4), ctr := n))
  {
    hide Opcode, FieldA, FieldT, Absolute, Linking, BO, Displacement14;
    ConditionalFields(0x4200_0008);
    ConditionalFields(0x4240_0008);
  }

  lemma ArithmeticFields()
    ensures Opcode(0x3861_0004) == 14 && FieldT(0x3861_0004) == 3 && FieldA(0x3861_0004) == 1
            && Immediate(0x3861_0004) == 4
    ensures Opcode(0x3860_FFFF) == 14 && FieldT(0x3860_FFFF) == 3 && FieldA(0x3860_FFFF) == 0
            && Immediate(0x3860_FFFF) == 0xFFFF
    ensures Opcode(0x3C60_1234) == 15 && FieldT(0x3C60_1234) == 3 && FieldA(0x3C60_1234) == 0
            && Immediate(0x3C60_1234) == 0x1234
    ensures Opcode(0x6064_0000) == 24 && FieldT(0x6064_0000) == 3 && FieldA(0x6064_0000) == 4
            && Immediate(0x6064_0000) == 0
  {
  }

  /** addi r3,r1,4; li r3,-1; lis r3,0x1234; ori r4,r3,0 */
  lemma Arithmetic(s: Cpu)
    ensures Execute(0x3861_0004, s) == Some(s.(pc := W(s.pc + 4), gpr := s.gpr[3 := W(s.gpr[1] as int + 4)]))
    ensures Execute(0x3860_FFFF, s) == Some(s.(pc := W(s.pc + 4), gpr := s.gpr[3 := 0xFFFF_FFFF]))
    ensures Execute(0x3C60_1234, s) == Some(s.(pc := W(s.pc + 4), gpr := s.gpr[3 := 0x1234_0000]))
    ensures Execute(0x6064_0000, s) == Some(s.(pc := W(s.pc + 4), gpr := s.gpr[4 := s.gpr[3]]))
  {
    hide Opcode, FieldA, FieldT, Immediate, Or, BO;
    ArithmeticFields();
    NothingOred(s.gpr[3]);
  }

  lemma NothingOred(x: word)
    ensures OrImmediate(x, 0) == x
  {
    hide Or;
    AndZero(x % 0x1_0000);
  }

  lemma MoveFields()
    ensures Opcode(0x7D69_03A6) == 31 && Extended(0x7D69_03A6) == 467 && SpecialRegister(0x7D69_03A6) == 9
            && FieldT(0x7D69_03A6) == 11
    ensures Opcode(0x7D68_03A6) == 31 && Extended(0x7D68_03A6) == 467 && SpecialRegister(0x7D68_03A6) == 8
            && FieldT(0x7D68_03A6) == 11
    ensures Opcode(0x4E80_0421) == 19 && Extended(0x4E80_0421) == 528 && Linking(0x4E80_0421)
    ensures BO(0x4E80_0421, 0) && BO(0x4E80_0421, 2)
  {
  }

  /** mtctr r11; mtlr r11; bctrl */
  lemma Moves(s: Cpu)
    ensures Execute(0x7D69_03A6, s) == Some(s.(pc := W(s.pc + 4), ctr := s.gpr[11]))
    ensures Execute(0x7D68_03A6, s) == Some(s.(pc := W(s.pc + 4), lr := s.gpr[11]))
    ensures Execute(0x4E80_0421, s) == Some(s.(pc := s.ctr / 4 * 4, lr := W(s.pc + 4)))
  {
    hide Opcode, Extended, SpecialRegister, FieldA, FieldT, Immediate, BO, Linking;
    MoveFields();
  }
}

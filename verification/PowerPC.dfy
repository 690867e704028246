/** The user-level PowerPC instructions that the linker writes or patches, after Power ISA Book I
    (section 2.4 for the branches, chapter 3 for the fixed-point instructions), in 32-bit mode. */
module PowerPC {
  import opened Bits
  import opened Memory
  import opened Wrappers

  type Registers = g: seq<word> | |g| == 32 ghost witness seq(32, (i: nat) => 0)
  type Conditions = c: seq<bool> | |c| == 32 ghost witness seq(32, (i: nat) => false)

  datatype Cpu = Cpu(pc: word, lr: word, ctr: word, gpr: Registers, cr: Conditions)

  // ----- instruction fields -----

  function Opcode(w: word): nat { w / 0x400_0000 }
  function FieldT(w: word): (r: nat)
    ensures r < 32
  {
    w / 0x20_0000 % 32
  }
  function FieldA(w: word): (r: nat)
    ensures r < 32
  {
    w / 0x1_0000 % 32
  }
  function Immediate(w: word): half { w % 0x1_0000 }
  function Extended(w: word): nat { w / 2 % 0x400 }
  predicate Absolute(w: word) { w / 2 % 2 == 1 }
  predicate Linking(w: word) { w % 2 == 1 }

  /** The special-purpose register number: the two five-bit halves of the field are swapped. */
  function SpecialRegister(w: word): nat {
    var f := w / 0x800 % 0x400;
    f % 32 * 32 + f / 32
  }

  function SignExtend16(h: half): int { if h < 0x8000 then h else h - 0x1_0000 }

  /** LI || 0b00, sign-extended: the displacement of an I-form branch. */
  function Displacement24(w: word): int {
    var f := w % 0x400_0000 / 4 * 4;
    if f < 0x200_0000 then f else f - 0x400_0000
  }

  /** BD || 0b00, sign-extended: the displacement of a B-form branch. */
  function Displacement14(w: word): int {
    var f := w % 0x1_0000 / 4 * 4;
    if f < 0x8000 then f else f - 0x1_0000
  }

  function BranchTarget(pc: word, w: word, disp: int): word {
    if Absolute(w) then W(disp) else W(pc + disp)
  }

  function LinkRegister(s: Cpu, w: word): word {
    if Linking(w) then Plus(s.pc, 4) else s.lr
  }

  /** Bit i of a BO field, counted from the most significant. */
  predicate BO(w: word, i: nat)
    requires i < 5
  {
    FieldT(w) / [16, 8, 4, 2, 1][i] % 2 == 1
  }

  function CountRegister(s: Cpu, w: word): word {
    if BO(w, 2) then s.ctr else Sub(s.ctr, 1)
  }

  predicate Taken(s: Cpu, w: word) {
    var ctrOk := BO(w, 2) || ((CountRegister(s, w) != 0) != BO(w, 3));
    var condOk := BO(w, 0) || s.cr[FieldA(w)] == BO(w, 1);
    ctrOk && condOk
  }

  /** Executing the instruction word w at s.pc; None when it is not one of those modelled. */
  function Execute(w: word, s: Cpu): Option<Cpu> {
    var next := Plus(s.pc, 4);
    if Opcode(w) == 18 then
      Some(s.(pc := BranchTarget(s.pc, w, Displacement24(w)), lr := LinkRegister(s, w)))
    else if Opcode(w) == 16 then
      Some(s.(pc := if Taken(s, w) then BranchTarget(s.pc, w, Displacement14(w)) else next,
              lr := LinkRegister(s, w), ctr := CountRegister(s, w)))
    else if Opcode(w) == 14 then
      Some(s.(pc := next, gpr := s.gpr[FieldT(w) := W(BaseRegister(s, w) + SignExtend16(Immediate(w)))]))
    else if Opcode(w) == 15 then
      Some(s.(pc := next, gpr := s.gpr[FieldT(w) := W(BaseRegister(s, w) + SignExtend16(Immediate(w)) * 0x1_0000)]))
    else if Opcode(w) == 24 then
      Some(s.(pc := next, gpr := s.gpr[FieldA(w) := OrImmediate(s.gpr[FieldT(w)], Immediate(w))]))
    else if Opcode(w) == 31 && Extended(w) == 467 && SpecialRegister(w) == 9 then
      Some(s.(pc := next, ctr := s.gpr[FieldT(w)]))
    else if Opcode(w) == 31 && Extended(w) == 467 && SpecialRegister(w) == 8 then
      Some(s.(pc := next, lr := s.gpr[FieldT(w)]))
    else if Opcode(w) == 19 && Extended(w) == 528 && BO(w, 2) then
      Some(s.(pc := if Taken(s, w) then s.ctr / 4 * 4 else next, lr := LinkRegister(s, w)))
    else
      None
  }

  /** The base of an addi or addis: register 0 reads as zero. */
  function BaseRegister(s: Cpu, w: word): word {
    if FieldA(w) == 0 then 0 else s.gpr[FieldA(w)]
  }

  function OrImmediate(x: word, h: half): (r: word)
    ensures r / 0x1_0000 == x / 0x1_0000
    ensures r % 0x1_0000 == Or(x % 0x1_0000, h)
  {
    PowersOfTwo();
    OrAt(16, 0x1_0000, x / 0x1_0000, x % 0x1_0000, 0, h);
    AndZero(x / 0x1_0000);
    Or(x, h)
  }

  /** Instructions are fetched from word-aligned addresses only. */
  function Step(m: Mem, s: Cpu): Option<Cpu> {
    if s.pc % 4 == 0 then Execute(GetWord(m, s.pc), s) else None
  }

  /** n instructions in a row. */
  function Run(m: Mem, s: Cpu, n: nat): Option<Cpu>
    decreases n
  {
    if n == 0 then Some(s)
    else match Step(m, s)
      case None => None
      case Some(s') => Run(m, s', n - 1)
  }
}

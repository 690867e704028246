/** Conditional branches and split immediates in the memory that a payload is entered with. */
module PayloadCode {
  import opened Bits
  import opened Memory
  import opened Wrappers
  import opened PowerPC
  import opened ElfUtils
  import opened Relocation
  import opened LinkRun
  import opened PatchedCode
  import opened ElfFile
  import opened Layout
  import opened LayoutTheorems
  import opened ModuleDataFactory
  import opened Imports
  import opened Loader
  import opened PayloadRun
  import opened Payload

  /** A relocation of the payload that the link pass applies, in a section that is not cleared. */
  ghost predicate LinkedEntry(elf: Elf, id: Id) {
    && IsRelocation(elf, id) && !IsImport(elf, elf[id.section], id.entry)
    && Patched(elf, id) < |elf| && Kept(elf, Patched(elf, id))
  }

  /** The loaded address of a relocation's field. */
  function FieldAddress(elf: Elf, id: Id): word
    requires ValidId(elf, id) && Patched(elf, id) < |elf|
  {
    LoadedAt(elf, PayloadStart(elf), Patched(elf, id), EntryOf(elf, id).offset)
  }

  /** The memory that the payload is entered with. */
  function FinalMemory(m: Mem, codeEnd: word, elf: Elf, entry: word, sys: System): Mem
    requires WellFormed(elf) && ModuleTable(codeEnd).InMemory()
  {
    Start(m, codeEnd, elf, entry, sys).1
  }

  /** A conditional branch of a started payload goes to S + A when its condition holds and falls through
      otherwise, provided BO does not test CTR for zero. */
  lemma PayloadConditionalWorks(m: Mem, codeEnd: word, elf: Elf, entry: word, sys: System, id: Id, s: Cpu)
    returns (op: Op)
    requires Started(m, codeEnd, elf, entry, sys) && LinkedEntry(elf, id) && EntryOf(elf, id).kind == R_PPC_REL14
    requires s.pc == FieldAddress(elf, id) && s.pc % 4 == 0
    requires var was := GetWord(LoadedImage(m, elf), s.pc);
             Opcode(was) == 16 && !Absolute(was) && (BO(was, 2) || !BO(was, 3))
    ensures op.link.addend == EntryOf(elf, id).addend && SymbolOf(elf, id).Some?
    ensures Resolve(SymbolOf(elf, id).value.value, PayloadStart(elf), BaseOf(elf, PayloadStart(elf), |elf|))
            == Resolved(op.link.symbolAddr)
    ensures var was := GetWord(LoadedImage(m, elf), s.pc);
            Step(FinalMemory(m, codeEnd, elf, entry, sys), s) ==
            Some(s.(pc := if Taken(s, was) then op.link.Value() else Plus(s.pc, 4),
                    lr := LinkRegister(s, was), ctr := CountRegister(s, was)))
  {
    hide Started, IsRelocation, InPlace, GetBytes, Resolve, SymbolOf, IsImport, Start, Image, LoadedAt, Opcode,
         Absolute, BaseOf, PayloadStart, Clean, WordOf, Patched, Taken, CountRegister, LinkRegister, BO, Step;
    var slot;
    StartedParts(m, codeEnd, elf, entry, sys);
    op, slot := PayloadLinked(m, codeEnd, elf, entry, sys, id);
    ConditionalInPlace(FinalMemory(m, codeEnd, elf, entry, sys), ModuleTable(codeEnd), op,
                       GetBytes(LoadedImage(m, elf), s.pc, 4), slot, s);
  }

  // ----- split immediates -----

  /** The register that the second instruction of a pair writes. */
  function PairResult(m: Mem, q: word, adjusted: bool, s: Cpu): word {
    var after := Step(m, s);
    if after.None? then 0
    else after.value.gpr[if adjusted then FieldT(GetWord(m, q)) else FieldA(GetWord(m, q))]
  }

  /** addis and addi, or lis and ori, at p and q; the second finds in its source what the first wrote. */
  predicate PairCode(m: Mem, p: word, q: word, adjusted: bool, s: Cpu, s': Cpu) {
    && p % 4 == 0 && q % 4 == 0 && s.pc == p && s'.pc == q
    && Opcode(GetWord(m, p)) == 15 && FieldA(GetWord(m, p)) == 0
    && (if adjusted then Opcode(GetWord(m, q)) == 14 && FieldA(GetWord(m, q)) == FieldT(GetWord(m, p)) != 0
        else Opcode(GetWord(m, q)) == 24 && FieldT(GetWord(m, q)) == FieldT(GetWord(m, p)))
    && Step(m, s).Some? && s'.gpr[FieldT(GetWord(m, p))] == Step(m, s).value.gpr[FieldT(GetWord(m, p))]
  }

  /** Both halves are of the same value: the same addend, or for values relative to the two places addends
      that make up for their distance. */
  ghost predicate SameSource(elf: Elf, id: Id, id': Id)
    requires ValidId(elf, id) && ValidId(elf, id') && Patched(elf, id) < |elf| && Patched(elf, id') < |elf|
  {
    var e, e' := EntryOf(elf, id), EntryOf(elf, id');
    && SymbolOf(elf, id) == SymbolOf(elf, id')
    && if e.kind == R_PPC_ADDR16_HA || e.kind == R_PPC_ADDR16_HI then e.addend == e'.addend
       else W(e'.addend - e.addend) == Sub(FieldAddress(elf, id'), FieldAddress(elf, id))
  }

  /** The relocations of a pair see the same value. */
  lemma SourcesEqual(l: Link, l': Link, adjusted: bool)
    requires IsPair(l.kind, l'.kind, adjusted) && l.symbolAddr == l'.symbolAddr
    requires if l.kind == R_PPC_ADDR16_HA || l.kind == R_PPC_ADDR16_HI then l.addend == l'.addend
             else W(l'.addend - l.addend) == Sub(l'.Target(), l.Target())
    ensures HalfSource(l) == HalfSource(l') && l.Width() == l'.Width() == 2
  {
    hide Link.Target;
    RelativeSourcesAgree(l, l');
  }

  lemma PairInPlace(m: Mem, t: Table, op: Op, was: seq<byte>, i: nat, op': Op, was': seq<byte>, i': nat,
                    adjusted: bool, p: word, q: word, s: Cpu, s': Cpu)
    requires t.InMemory() && |was| == op.link.Width() == 2 && |was'| == op'.link.Width() == 2
    requires InPlace(m, t, op, was, i) && InPlace(m, t, op', was', i')
    requires IsPair(op.link.kind, op'.link.kind, adjusted) && HalfSource(op.link) == HalfSource(op'.link)
    requires op.link.Target() == Plus(p, 2) && op'.link.Target() == Plus(q, 2) && PairCode(m, p, q, adjusted, s, s')
    ensures PairResult(m, q, adjusted, s') == HalfSource(op.link)
  {
    hide InPlace, HalfSource, Link.Target, HalfBytes, Ha, Hi, Lo, GetBytes, Opcode, FieldT, FieldA, GetWord, Step;
    HalfInPlace(m, t, op, was, i);
    HalfInPlace(m, t, op', was', i');
    SecondRuns(m, q, adjusted, s');
    if adjusted {
      HaLoPair(m, p, q, HalfSource(op.link), s, s');
    } else {
      HiLoPair(m, p, q, HalfSource(op.link), s, s');
    }
  }

  lemma SecondRuns(m: Mem, q: word, adjusted: bool, s: Cpu)
    requires q % 4 == 0 && s.pc == q && Opcode(GetWord(m, q)) == if adjusted then 14 else 24
    ensures Step(m, s).Some?
  {
    hide GetWord, Opcode, FieldT, FieldA, Immediate, OrImmediate, SignExtend16, BaseRegister, Taken, BO;
  }

  /** A split immediate of a started payload, patched with the two halves of one value, computes it: S + A,
      or S + A - P for the GHS_REL16 kinds. */
  lemma PayloadPairWorks(m: Mem, codeEnd: word, elf: Elf, entry: word, sys: System, id: Id, id': Id,
                         adjusted: bool, p: word, q: word, s: Cpu, s': Cpu) returns (op: Op)
    requires Started(m, codeEnd, elf, entry, sys) && LinkedEntry(elf, id) && LinkedEntry(elf, id')
    requires IsPair(EntryOf(elf, id).kind, EntryOf(elf, id').kind, adjusted) && SameSource(elf, id, id')
    requires FieldAddress(elf, id) == Plus(p, 2) && FieldAddress(elf, id') == Plus(q, 2)
    requires PairCode(FinalMemory(m, codeEnd, elf, entry, sys), p, q, adjusted, s, s')
    ensures op.link.kind == EntryOf(elf, id).kind && op.link.addend == EntryOf(elf, id).addend
    ensures op.link.Target() == Plus(p, 2) && SymbolOf(elf, id).Some?
    ensures Resolve(SymbolOf(elf, id).value.value, PayloadStart(elf), BaseOf(elf, PayloadStart(elf), |elf|))
            == Resolved(op.link.symbolAddr)
    ensures PairResult(FinalMemory(m, codeEnd, elf, entry, sys), q, adjusted, s') == HalfSource(op.link)
  {
    hide Started, IsRelocation, InPlace, GetBytes, Resolve, SymbolOf, IsImport, Start, Image, LoadedAt, BaseOf,
         PayloadStart, Clean, Patched, PairCode, PairResult, HalfSource, IsPair, LinkedEntry, Kept, Link.Target;
    LinkedParts(elf, id);
    LinkedParts(elf, id');
    StartedParts(m, codeEnd, elf, entry, sys);
    var slot, op', slot';
    op, slot := PayloadLinked(m, codeEnd, elf, entry, sys, id);
    op', slot' := PayloadLinked(m, codeEnd, elf, entry, sys, id');
    SourcesEqual(op.link, op'.link, adjusted);
    PairInPlace(FinalMemory(m, codeEnd, elf, entry, sys), ModuleTable(codeEnd),
                op, GetBytes(LoadedImage(m, elf), op.link.Target(), 2), slot,
                op', GetBytes(LoadedImage(m, elf), op'.link.Target(), 2), slot', adjusted, p, q, s, s');
  }

  lemma LinkedParts(elf: Elf, id: Id)
    requires LinkedEntry(elf, id)
    ensures IsRelocation(elf, id) && ValidId(elf, id) && !IsImport(elf, elf[id.section], id.entry)
    ensures Patched(elf, id) < |elf| && Kept(elf, Patched(elf, id))
  {
  }
}

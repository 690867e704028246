/** Concrete inputs on which the loader does not do what its comments and its guards intend. */
module Shortcomings {
  import opened Bits
  import opened Memory
  import opened Wrappers
  import opened PowerPC
  import opened ElfUtils
  import opened Relocation
  import opened LinkRun
  import opened Execution
  import opened FarAddends
  import opened PatchedCode
  import opened WholeRun
  import opened ElfFile
  import opened Layout
  import opened LayoutTheorems
  import opened ModuleDataFactory
  import opened Imports
  import opened Loader

  // ----- two far imports -----

  function Zeros(): Mem { seq(0x1_0000_0000, (i: nat) => 0) }

  /** A table with free slots and two `bl` instructions. */
  function TwoCalls(): Mem { PutWord(PutWord(Zeros(), 0x0090_0000, 0x4800_0001), 0x0090_0004, 0x4800_0001) }

  const TABLE := Table(0x0081_0000, 2)

  function CallTo(place: word, address: word): Op {
    Op(Link(R_PPC_REL24, 0, 0, place, address), RELOC_TRAMP_IMPORT_DONE)
  }

  function TwoImports(): seq<Op> { [CallTo(0x0090_0000, 0x0C00_0000), CallTo(0x0090_0004, 0x0D00_0000)] }

  lemma ZeroWord(a: word)
    ensures GetWord(Zeros(), a) == 0
  {
    assert GetBytes(Zeros(), a, 4) == [0, 0, 0, 0];
  }

  lemma TwoCallsWords()
    ensures GetWord(TwoCalls(), 0x0090_0000) == 0x4800_0001
    ensures Available(TwoCalls(), TABLE, 0)
  {
    hide WordOf, WordBytes;
    var m1 := PutWord(Zeros(), 0x0090_0000, 0x4800_0001);
    GetPutWord(Zeros(), 0x0090_0000, 0x4800_0001);
    GetPutOther(m1, 0x0090_0004, WordBytes(0x4800_0001), 0x0090_0000, 4);
    GetPutOther(m1, 0x0090_0004, WordBytes(0x4800_0001), 0x0081_0010, 4);
    GetPutOther(Zeros(), 0x0090_0000, WordBytes(0x4800_0001), 0x0081_0010, 4);
    ZeroWord(0x0081_0010);
  }

  lemma TwoImportsSeparate()
    ensures Separate(TABLE, TwoImports()) && AllImports(TwoImports())
    ensures TwoImports()[0].link.Far() && TwoImports()[1].link.Far() && LastFar(TwoImports()) == 1
  {
  }

  lemma TwoImportsSucceed()
    ensures RunLinks(TwoCalls(), TABLE, TwoImports()).ok
  {
    hide RunLinks, LinkOne, Status, TwoCalls, AvailableSlots, Linkable, AllImports, Separate, LastFar;
    TwoCallsWords();
    TwoImportsSeparate();
    var m, ops := TwoCalls(), TwoImports();
    assert AvailableSlots(m, TABLE, 0) != [] && AvailableSlots(m, TABLE, 0)[0] == 0 by { FirstSlot(m); }
    forall i | 0 <= i < 2 ensures Placeable(m, TABLE, ops, i) {
      ImportsTakeNothing(ops[..i]);
    }
    RunSucceedsExactly(m, TABLE, ops);
  }

  lemma FirstSlot(m: Mem)
    requires Available(m, TABLE, 0)
    ensures AvailableSlots(m, TABLE, 0) != [] && AvailableSlots(m, TABLE, 0)[0] == 0
  {
    hide Available;
  }

  /** Both imports link successfully, but the first call ends up in the second function. */
  lemma FirstImportGoesAstray(s: Cpu)
    requires s.pc == 0x0090_0000
    ensures var m' := RunLinks(TwoCalls(), TABLE, TwoImports()).mem;
            && RunLinks(TwoCalls(), TABLE, TwoImports()).ok
            && TwoImports()[0].link.Value() == 0x0C00_0000
            && !BranchWorks(m', TwoImports()[0].link, 0x4800_0001, s)
            && Run(m', s, 5).Some? && Run(m', s, 5).value.pc == 0x0D00_0000
  {
    hide RunLinks, TwoCalls, Run, BranchWorks, AllImports, Separate, LastFar, GetWord, RelativeBranch, LinkRegister,
         Link.Far;
    TwoCallsWords();
    TwoImportsSeparate();
    TwoImportsSucceed();
    FirstIsCall();
    ImportWorksExactly(TwoCalls(), TABLE, TwoImports(), 0, s);
    ImportBranchRuns(TwoCalls(), TABLE, TwoImports(), 0, s);
  }

  lemma FirstIsCall()
    ensures RelativeBranch(TwoImports()[0].link, 0x4800_0001)
    ensures TwoImports()[0].link.Value() == 0x0C00_0000 && TwoImports()[1].link.Value() == 0x0D00_0000
  {
  }

  // ----- far branches with an addend, or to an unaligned value -----

  function FarCall(address: word, addend: sword): Op {
    Op(Link(R_PPC_REL24, 0, addend, 0x0090_0000, address), RELOC_TRAMP_FIXED)
  }

  /** A far call from the first instruction links, through the first slot. */
  lemma FarCallLinks(address: word, addend: sword)
    requires 0x0C00_0000 <= address < 0x0D00_0000 && 0 <= addend < 0x100 && addend % 4 == 0
    ensures var op := FarCall(address, addend);
            && op.link.Far() && RunLinks(TwoCalls(), TABLE, [op]).ok && Separate(TABLE, [op])
            && InPlace(RunLinks(TwoCalls(), TABLE, [op]).mem, TABLE, op, GetBytes(TwoCalls(), 0x0090_0000, 4), 0)
  {
    hide RunLinks, LinkOne, Status, TwoCalls, AvailableSlots, Linkable, InPlace, GetBytes;
    TwoCallsWords();
    var m, op := TwoCalls(), FarCall(address, addend);
    FarCallIsFar(address, addend);
    FirstSlot(m);
    assert [op][..0] == [];
    assert SlotOf(m, TABLE, [op], 0) == 0;
    assert Placeable(m, TABLE, [op], 0);
    RunSucceedsExactly(m, TABLE, [op]);
    RunImage(m, TABLE, [op], 0);
  }

  lemma FarCallIsFar(address: word, addend: sword)
    requires 0x0C00_0000 <= address < 0x0D00_0000 && 0 <= addend < 0x100 && addend % 4 == 0
    ensures var op := FarCall(address, addend);
            && op.link.Far() && op.link.Width() == 4 && op.link.Value() == address + addend
            && StubInReach(TABLE, 0, op.link) && OffTable(TABLE, op.link)
  {
  }

  lemma FarCallIsBranch(address: word, addend: sword)
    ensures RelativeBranch(FarCall(address, addend).link, WordOf(GetBytes(TwoCalls(), 0x0090_0000, 4)))
  {
    hide TwoCalls, Available, WordOf, GetBytes;
    TwoCallsWords();
  }

  /** A far call to a function at an address that is not word-aligned links, and arrives two bytes short. */
  lemma UnalignedCallMisses(s: Cpu)
    requires s.pc == 0x0090_0000
    ensures var m' := RunLinks(TwoCalls(), TABLE, [FarCall(0x0C00_0002, 0)]).mem;
            && RunLinks(TwoCalls(), TABLE, [FarCall(0x0C00_0002, 0)]).ok
            && Run(m', s, 5).Some? && Run(m', s, 5).value.pc == 0x0C00_0000
            && !BranchWorks(m', FarCall(0x0C00_0002, 0).link, 0x4800_0001, s)
  {
    hide RunLinks, TwoCalls, Run, InPlace, GetBytes, WordOf, LinkRegister, Opcode, Absolute;
    var op := FarCall(0x0C00_0002, 0);
    FarCallLinks(0x0C00_0002, 0);
    FarCallIsFar(0x0C00_0002, 0);
    FarCallIsBranch(0x0C00_0002, 0);
    FarBranchReaches(RunLinks(TwoCalls(), TABLE, [op]).mem, TABLE, op, GetBytes(TwoCalls(), 0x0090_0000, 4), 0, s);
  }

  /** A far call to four bytes behind a function links, and enters its stub at the second instruction: it
      arrives at r11 with the low half of the value or-ed in, so the high half is left to chance. */
  lemma AddendCallMisses(s: Cpu)
    requires s.pc == 0x0090_0000
    ensures var m' := RunLinks(TwoCalls(), TABLE, [FarCall(0x0C00_0000, 4)]).mem;
            && RunLinks(TwoCalls(), TABLE, [FarCall(0x0C00_0000, 4)]).ok
            && FarCall(0x0C00_0000, 4).link.Value() == 0x0C00_0004
            && Run(m', s, 4).Some? && Run(m', s, 4).value.pc == OrImmediate(s.gpr[11], 4) / 4 * 4
            && (s.gpr[11] / 0x1_0000 != 0x0C00 ==> Run(m', s, 4).value.pc != 0x0C00_0004)
  {
    hide RunLinks, TwoCalls, Run, InPlace, GetBytes, RelativeBranch, WordOf, Link.Far, Separate, OrImmediate;
    var op := FarCall(0x0C00_0000, 4);
    FarCallLinks(0x0C00_0000, 4);
    FarCallIsFar(0x0C00_0000, 4);
    FarCallIsBranch(0x0C00_0000, 4);
    SecondWordRuns(RunLinks(TwoCalls(), TABLE, [op]).mem, TABLE, op, GetBytes(TwoCalls(), 0x0090_0000, 4), 0, s);
    HighHalfKept(OrImmediate(s.gpr[11], 4));
  }

  lemma HighHalfKept(x: word)
    ensures x / 4 * 4 / 0x1_0000 == x / 0x1_0000
  {
    var q, r := x / 0x1_0000, x % 0x1_0000;
    assert x / 4 == q * 0x4000 + r / 4;
    assert x / 4 * 4 == q * 0x1_0000 + r / 4 * 4;
  }

  // ----- a conditional branch that changes its mind -----

  /** bdz, linked to a function 0x100 bytes further on. */
  function Bdz(): Op { Op(Link(R_PPC_REL14, 0, 0, 0x0090_0000, 0x0090_0100), RELOC_TRAMP_FIXED) }

  function BdzMemory(): Mem { PutWord(Zeros(), 0x0090_0000, 0x4240_0000) }

  lemma BdzFields()
    ensures FieldT(0x4240_0000) == 18 && FieldA(0x4240_0000) == 0 && Opcode(0x4240_0000) == 16
    ensures !Absolute(0x4240_0000) && !Linking(0x4240_0000)
    ensures BO(0x4240_0000, 0) && !BO(0x4240_0000, 2) && BO(0x4240_0000, 3)
  {
  }

  lemma BdzLinks()
    ensures RunLinks(BdzMemory(), TABLE, [Bdz()]).ok
    ensures GetWord(RunLinks(BdzMemory(), TABLE, [Bdz()]).mem, 0x0090_0000) == WithDisplacement14(0x4240_0000, 0x100)
  {
    hide RunLinks, LinkOne, GetBytes, WordOf, WordBytes, WithDisplacement14, BdzMemory, InPlace, SlotOf, PutBytes;
    var m, op := BdzMemory(), Bdz();
    assert GetWord(m, 0x0090_0000) == 0x4240_0000 by { BdzWord(); }
    assert Placeable(m, TABLE, [op], 0);
    RunSucceedsExactly(m, TABLE, [op]);
    RunImage(m, TABLE, [op], 0);
    BdzInPlace(RunLinks(m, TABLE, [op]).mem, GetBytes(m, 0x0090_0000, 4), SlotOf(m, TABLE, [op], 0));
  }

  lemma BdzWord()
    ensures GetWord(BdzMemory(), 0x0090_0000) == 0x4240_0000
  {
    hide GetWord, PutWord;
    GetPutWord(Zeros(), 0x0090_0000, 0x4240_0000);
  }

  lemma BdzInPlace(m: Mem, was: seq<byte>, i: nat)
    requires |was| == 4 == Bdz().link.Width() && InPlace(m, TABLE, Bdz(), was, i) && !Bdz().link.Far()
    requires Bdz().link.Distance() == 0x100 && Bdz().link.Target() == 0x0090_0000
    ensures GetWord(m, 0x0090_0000) == WithDisplacement14(WordOf(was), 0x100)
  {
    hide WordOf, WordBytes, GetBytes, WithDisplacement14, Link.Far, Link.Distance, Link.Target, Linkable;
    WordRoundTrip(WithDisplacement14(WordOf(was), 0x100));
  }

  /** The link succeeds. With CTR at 1 the instruction as it was would branch; the patched one does not. */
  lemma PatchedBdzFallsThrough(s: Cpu)
    requires s.pc == 0x0090_0000 && s.ctr == 1
    ensures var m' := RunLinks(BdzMemory(), TABLE, [Bdz()]).mem;
            && RunLinks(BdzMemory(), TABLE, [Bdz()]).ok && Taken(s, GetWord(BdzMemory(), 0x0090_0000))
            && Step(m', s) == Some(s.(pc := 0x0090_0004, ctr := 0))
  {
    hide RunLinks, BdzMemory, WithDisplacement14, FieldT, FieldA, Opcode, Absolute, Linking, BO, GetWord,
         Displacement14;
    BdzFields();
    BdzWord();
    BdzLinks();
    var r := WithDisplacement14(0x4240_0000, 0x100);
    Decode14(0x4240_0000, 0x100);
    PatchedBO(0x4240_0000, r);
    FlagsOfLowBits(0x4240_0000, r);
  }

  // ----- an import that is dropped -----

  /** A module with one import, from a section whose name does not say functions or data. */
  function IllNamedModule(): Elf {
    [Section(SHT_RELA, 0, 12, 0, 1, 0, ".rela.text", [], [Reloc(0x0200_0000, 0, R_PPC_REL24, 0)], []),
     Section(2, 0, 16, 0, 0, 0, ".symtab", [], [], [Symbol("OSReport", 0xC000_0000, 2)]),
     Section(SHT_RPL_IMPORTS, 0, 0, 0xC000_0000, 0, 0, ".import_coreinit", [], [], [])]
  }

  lemma IllNamedRoom()
    ensures Room(IllNamedModule()) == 0
  {
    hide And;
    var elf := IllNamedModule();
    assert elf[..2] == [elf[0], elf[1]] && [elf[0], elf[1]][..1] == [elf[0]] && [elf[0]][..0] == [];
    assert Room([]) == 0;
    assert Room([elf[0]]) == 0;
    assert Room([elf[0], elf[1]]) == 0;
  }

  lemma IllNamedLists()
    ensures var elf := IllNamedModule();
            && |elf| == 3 && WellFormed(elf) && Room(elf) == 0 && (forall k :: 0 <= k < 3 ==> !elf[k].Allocated())
            && IsRelocation(elf, Id(0, 0)) && IsImport(elf, elf[0], 0) && RplOf(elf, elf[0], 0).None?
  {
    hide And, Room;
    IllNamedRoom();
    var raw := ".import_coreinit";
    assert raw[1] == 'i' && ".fimport_"[1] == 'f' && ".dimport_"[1] == 'd';
    assert CreateImportRPL(raw).None?;
  }

  lemma IllNamedPasses(dests: seq<word>, target: word)
    requires |dests| == 3
    ensures WellFormed(IllNamedModule()) && ModuleImports(IllNamedModule(), dests, 0) == Some([])
    ensures ModuleActs(IllNamedModule(), dests, 0, target, target) == []
  {
    hide And, Section.Allocated, RplOf;
    IllNamedLists();
    var elf := IllNamedModule();
    var none: seq<RelocationData> := [];
    assert none + none == none;
    assert SectionImports(elf, dests, elf[0], 0) == Some(none);
    assert ModuleImports(elf, dests, 3) == Some(none);
    assert ModuleImports(elf, dests, 2) == Some(none);
    assert ModuleImports(elf, dests, 1) == Some(none);
    assert ModuleActs(elf, dests, 3, target, target) == [];
    assert ModuleActs(elf, dests, 2, target, target) == [];
    assert ModuleActs(elf, dests, 1, target, target) == [];
  }

  /** The load succeeds, and the relocation for the import is neither applied nor returned. */
  lemma IllNamedImportVanishes(m: Mem, entry: word, t: Table)
    requires t.InMemory()
    ensures WellFormed(IllNamedModule()) && IsRelocation(IllNamedModule(), Id(0, 0))
    ensures var (loaded, m') := LoadModule(m, IllNamedModule(), entry, 0x00FD_0000, 0, t);
            loaded.Loaded? && loaded.data.relocations == [] && m' == m
  {
    hide And, Section.Allocated, ModuleActs, ModuleImports, IllNamedModule, TargetAddress, RplOf;
    IllNamedLists();
    var elf := IllNamedModule();
    var target := TargetAddress(0x00FD_0000, 0);
    var p := InitialPlacement(elf, target);
    IllNamedPasses(p.dests, target);
    assert Place(elf, 3, target, 0x00FD_0000, p, m) == (Success, p, m);
    assert Place(elf, 2, target, 0x00FD_0000, p, m) == (Success, p, m);
    assert Place(elf, 1, target, 0x00FD_0000, p, m) == (Success, p, m);
    assert RunActs(m, t, []) == (Success, m);
  }

  // ----- a relocation outside its section -----

  /** A module with an empty text section and one relocation for it whose offset lies 8 MiB behind it. */
  function StrayModule(): Elf {
    [Section(SHT_PROGBITS, SHF_ALLOC, 0, 0x0200_0000, 0, 0, ".text", [], [], []),
     Section(SHT_RELA, 0, 12, 0, 2, 0, ".rela.text", [], [Reloc(0x0280_0000, 0, R_PPC_ADDR32, 0)], []),
     Section(2, 0, 16, 0, 0, 0, ".symtab", [], [], [Symbol("", 0, 0)])]
  }

  function StrayLink(): Link { Link(R_PPC_ADDR32, 0x0280_0000, 0, 0xFEFC_FF00, 0) }

  lemma StrayRoom()
    ensures Room(StrayModule()) == 1
    ensures TargetAddress(0x00FD_0000, 1) == 0x00FC_FF00
  {
    hide And;
    AndRound8(0x00FC_FFFF);
    AllocFlag();
    var elf := StrayModule();
    assert elf[..2] == [elf[0], elf[1]] && [elf[0], elf[1]][..1] == [elf[0]] && [elf[0]][..0] == [];
    assert Room([]) == 0;
    assert Room([elf[0]]) == 1;
    assert Room([elf[0], elf[1]]) == 1;
  }

  lemma StrayLists()
    ensures var elf := StrayModule();
            && |elf| == 3 && WellFormed(elf) && elf[0].Placed() && !elf[1].Allocated() && !elf[2].Allocated()
            && elf[1].HasRelocations() && !elf[0].HasRelocations() && !elf[2].HasRelocations()
            && (forall k :: 0 <= k < 3 ==> elf[k].info == 0 && (k != 1 ==> elf[k].entries == []))
            && |elf[1].entries| == 1 && !IsImport(elf, elf[1], 0)
            && EntryAct(elf, elf[1], 0, 0xFEFC_FF00, 0x00FC_FF00, 0x00FC_FF00) == Apply(StrayLink())
            && GetSymbol(elf, elf[1], elf[1].entries[0].symbol).Some?
  {
    hide And;
    AllocFlag();
  }

  lemma StrayPlaced(m: Mem)
    ensures WellFormed(StrayModule())
    ensures Place(StrayModule(), 0, 0x00FC_FF00, 0x00FD_0000, InitialPlacement(StrayModule(), 0x00FC_FF00), m)
            == (Success, Placement(0x00FC_FF00, [0xFEFC_FF00, 0, 0], (0, 0), (0, 0)), m)
  {
    hide And, PutBytes;
    StrayLists();
    var elf := StrayModule();
    PutNothing(m, 0x00FC_FF00);
    var p := InitialPlacement(elf, 0x00FC_FF00);
    var q := PlaceOne(elf[0], 0, 0x00FC_FF00, 0x00FD_0000, p, m).1;
    assert q.dests == [0xFEFC_FF00, 0, 0];
    assert Place(elf, 3, 0x00FC_FF00, 0x00FD_0000, q, m) == (Success, q, m);
    assert Place(elf, 2, 0x00FC_FF00, 0x00FD_0000, q, m) == (Success, q, m);
    assert Place(elf, 1, 0x00FC_FF00, 0x00FD_0000, q, m) == (Success, q, m);
  }

  lemma StrayPasses()
    ensures WellFormed(StrayModule()) && ModuleImports(StrayModule(), [0xFEFC_FF00, 0, 0], 0) == Some([])
    ensures ModuleActs(StrayModule(), [0xFEFC_FF00, 0, 0], 0, 0x00FC_FF00, 0x00FC_FF00) == [Apply(StrayLink())]
  {
    hide StrayModule, IsImport, EntryAct, StrayLink, Section.Allocated, Section.HasRelocations, GetSymbol;
    StrayLists();
    var elf := StrayModule();
    var dests: seq<word> := [0xFEFC_FF00, 0, 0];
    var none: seq<RelocationData> := [];
    assert none + none == none;
    assert SectionImports(elf, dests, elf[1], 1) == Some(none);
    assert SectionImports(elf, dests, elf[1], 0) == Some(none);
    assert ModuleImports(elf, dests, 3) == Some(none);
    assert ModuleImports(elf, dests, 2) == Some(none);
    assert ModuleImports(elf, dests, 1) == Some(none);
    assert EntryIds(elf, 1, 1) == [] && EntryIds(elf, 1, 0) == [Id(1, 0)];
    assert SectionIds(elf, 0, 3) == [] && SectionIds(elf, 0, 2) == [];
    assert SectionIds(elf, 0, 1) == [Id(1, 0)] && SectionIds(elf, 0, 0) == [Id(1, 0)];
    assert ModuleActs(elf, dests, 3, 0x00FC_FF00, 0x00FC_FF00) == [];
    assert ModuleActs(elf, dests, 2, 0x00FC_FF00, 0x00FC_FF00) == [];
    assert ModuleActs(elf, dests, 1, 0x00FC_FF00, 0x00FC_FF00) == [];
    assert SectionActs(elf, 0, 0, 0xFEFC_FF00, 0x00FC_FF00, 0x00FC_FF00) == [Apply(StrayLink())];
  }

  /** The load succeeds and overwrites a word far above the window. */
  lemma StrayRelocationEscapes(m: Mem, entry: word, t: Table)
    requires t.InMemory()
    ensures WellFormed(StrayModule())
    ensures var (loaded, m') := LoadModule(m, StrayModule(), entry, 0x00FD_0000, 0x10_0000, t);
            loaded.Loaded? && GetWord(m', 0x017C_FF00) == 0
  {
    hide And, Room, PutBytes, Place, ModuleActs, ModuleImports, StrayModule, TargetAddress, GetWord;
    StrayRoom();
    StrayLists();
    StrayPlaced(m);
    StrayPasses();
    var m' := PutWord(m, 0x017C_FF00, 0);
    GetPutWord(m, 0x017C_FF00, 0);
    assert LinkOne(m, t, StrayLink(), RELOC_TRAMP_FIXED) == Result(true, m');
    assert RunActs(m', t, []) == (Success, m');
    assert RunActs(m, t, [Apply(StrayLink())]) == (Success, m');
  }

  // ----- a section too large for the guards -----

  /** A module of one zero-filled section of 0xFFFFFFFF bytes: its room wraps around to 0. */
  function HugeModule(): Elf {
    [Section(SHT_NOBITS, SHF_ALLOC, 0xFFFF_FFFF, 0x1000_0000, 0, 0, ".bss", [], [], [])]
  }

  /** Every guard of the size and layout passes lets it through, and it is not loaded inside the window. */
  lemma HugeModuleEscapes(m: Mem)
    ensures WellFormed(HugeModule()) && W(Room(HugeModule())) == 0
    ensures var target := TargetAddress(0x00FD_0000, 0);
            && Succeeds(HugeModule(), target, 0x00FD_0000, m)
            && HugeModule()[0].Placed()
            && !InWindow(HugeModule(), target, 0x00FD_0000, 0)
  {
    hide PutBytes, And, TargetAddress, TextBefore;
    var elf := HugeModule();
    TargetBelow(0x00FD_0000, 0);
    var target := TargetAddress(0x00FD_0000, 0);
    assert target == 0x00FD_0000;
    assert elf[0].Placed() by { AllocFlag(); }
    assert Room(elf[..0]) == 0;
    assert elf[..|elf| - 1] == elf[..0];
    var r := PlaceOne(elf[0], 0, target, 0x00FD_0000, InitialPlacement(elf, target), m);
    assert r.0 == Success;
    assert Place(elf, 1, target, 0x00FD_0000, r.1, r.2).0 == Success;
    GuardExact(elf, target, 0x00FD_0000, m, 0);
    EmptyBase(elf, target);
  }
}

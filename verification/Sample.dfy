/** A small payload that starts: one text section with a call to itself and a far call to the system. It
    meets every condition of the theorems about started payloads. */
module Sample {
  import opened Bits
  import opened Memory
  import opened Wrappers
  import opened PowerPC
  import opened ElfUtils
  import opened Relocation
  import opened LinkRun
  import opened WholeRun
  import opened ElfFile
  import opened Layout
  import opened LayoutTheorems
  import opened ModuleDataFactory
  import opened Imports
  import opened Loader
  import opened PayloadRun
  import opened Payload
  import opened PayloadImports

  const CODE_END: word := 0x0080_0000
  const TARGET: word := 0x00FC_FF00

  /** bl main; bl OSReport; main: blr */
  function Text(): Section {
    Section(SHT_PROGBITS, SHF_ALLOC, 12, 0x0200_0000, 0, 0, ".text",
            [0x48, 0, 0, 1, 0x48, 0, 0, 1, 0x4E, 0x80, 0, 0x20], [], [])
  }

  function Relocations(): Section {
    Section(SHT_RELA, 0, 24, 0, 2, 0, ".rela.text", [],
            [Reloc(0x0200_0000, 0, R_PPC_REL24, 0), Reloc(0x0200_0004, 1, R_PPC_REL24, 0)], [])
  }

  function Symbols(): Section {
    Section(2, 0, 32, 0, 0, 0, ".symtab", [], [],
            [Symbol("main", 0x0200_0008, 0), Symbol("OSReport", 0xC000_0000, 3)])
  }

  function ImportNames(): Section {
    Section(SHT_RPL_IMPORTS, 0, 0, 0xC000_0000, 0, 0, ".fimport_coreinit", [], [], [])
  }

  function SampleFile(): Elf { [Text(), Relocations(), Symbols(), ImportNames()] }

  /** A system in which every library is there and exports everything at 0x0C000000. */
  function OneExport(): System { System(name => Some(1), (handle, isData, name) => 0x0C00_0000) }

  lemma SampleAddresses()
    ensures ModuleTable(CODE_END) == Table(0x0080_0100, 500)
    ensures ModuleDataStart(CODE_END) == 0x0081_0000
    ensures Text().Allocated() && Text().Placed()
    ensures Room(SampleFile()) == 13 && PayloadStart(SampleFile()) == TARGET
  {
    hide And;
    AndRound8(0x0080_0100);
    AndRound16(0x0081_2810);
    AndRound8(0x00FC_FFF3);
    AllocFlag();
    var elf := SampleFile();
    assert elf[..3] == [Text(), Relocations(), Symbols()] && elf[..3][..2] == [Text(), Relocations()];
    assert elf[..3][..2][..1] == [Text()] && [Text()][..0] == [];
    assert Room([]) == 0;
    assert Room([Text()]) == 13;
    assert Room([Text(), Relocations()]) == 13;
    assert Room([Text(), Relocations(), Symbols()]) == 13;
    assert Room(elf) == 13;
  }

  /** The first section is the only one that is loaded, the second has the only relocations. */
  lemma SampleShape()
    ensures var elf := SampleFile();
            && Occupies(elf[0]) && elf[0].IsText()
            && (forall k :: 0 < k < |elf| ==> !elf[k].Allocated())
            && (forall k :: 0 <= k < |elf| ==>
                (elf[k].HasRelocations() <==> k == 1) && (elf[k].entries != [] <==> k == 1))
    ensures WellFormed(SampleFile()) && RelocationsOnly(SampleFile())
  {
    hide And;
    AllocFlag();
  }

  lemma SampleEntries(id: Id)
    ensures IsRelocation(SampleFile(), id) <==> id == Id(1, 0) || id == Id(1, 1)
  {
    hide And;
    SampleShape();
    assert |SampleFile()[1].entries| == 2;
  }

  lemma SampleImports()
    ensures var elf := SampleFile();
            && !IsImport(elf, elf[1], 0) && IsImport(elf, elf[1], 1)
            && RplOf(elf, elf[1], 1) == Some(ImportRPL("coreinit", false))
  {
    ImportNameExact(".fimport_coreinit", ImportRPL("coreinit", false));
  }

  lemma SampleEntryWithin(id: Id)
    requires id == Id(1, 0) || id == Id(1, 1)
    ensures Within(SampleFile(), id)
  {
    hide And;
    SampleShape();
  }

  lemma SampleSections()
    ensures var elf := SampleFile();
            && TextFirst(elf) && RangesApart(elf)
            && forall i :: 0 <= i < |elf| && Occupies(elf[i]) && elf[i].IsText() ==> elf[i].address == 0x02000000
  {
    hide Section.Allocated, Section.IsText, SampleFile;
    SampleShape();
    SampleFieldsApart();
  }

  lemma SampleFits()
    ensures Fits(CODE_END, SampleFile())
  {
    hide And, Room, SampleFile;
    SampleAddresses();
  }

  lemma SampleIsClean()
    ensures Clean(SampleFile()) && Fits(CODE_END, SampleFile())
  {
    hide Fits, Within, SampleFile, IsImport, RplOf, FieldsApart, TextFirst, RangesApart, Occupies, Section.IsText,
         WellFormed, RelocationsOnly, Patched;
    SampleFits();
    SampleShape();
    SampleSections();
    SampleImports();
    SampleFieldsApart();
    var elf := SampleFile();
    forall id | IsRelocation(elf, id)
        ensures ValidId(elf, id) && Within(elf, id) && (id == Id(1, 0) || id == Id(1, 1)) {
      SampleEntries(id);
      SampleEntryWithin(id);
    }
  }

  lemma SampleFieldsApart()
    ensures FieldsApart(SampleFile(), Id(1, 0), Id(1, 1)) && FieldsApart(SampleFile(), Id(1, 1), Id(1, 0))
    ensures |SampleFile()| == 4 && SampleFile()[0] == Text()
  {
  }

  // ----- it is loaded and linked -----

  const DEST: word := 0xFEFC_FF00

  function TextLoaded(m: Mem): Mem { PutBytes(m, TARGET, Text().data) }

  lemma SamplePlaced(m: Mem)
    ensures WellFormed(SampleFile())
    ensures Place(SampleFile(), 0, TARGET, PAYLOAD_END, InitialPlacement(SampleFile(), TARGET), m)
            == (Success, Placement(TARGET + 12, [DEST, 0, 0, 0], (0, 0), (0, 0)), TextLoaded(m))
  {
    hide PutBytes, Section.Allocated;
    SampleShape();
    var elf := SampleFile();
    var p := InitialPlacement(elf, TARGET);
    assert Text().data[..12] == Text().data;
    var q := PlaceOne(elf[0], 0, TARGET, PAYLOAD_END, p, m).1;
    assert q.dests == [DEST, 0, 0, 0];
    var m1 := TextLoaded(m);
    assert Place(elf, 4, TARGET, PAYLOAD_END, q, m1) == (Success, q, m1);
    assert Place(elf, 3, TARGET, PAYLOAD_END, q, m1) == (Success, q, m1);
    assert Place(elf, 2, TARGET, PAYLOAD_END, q, m1) == (Success, q, m1);
    assert Place(elf, 1, TARGET, PAYLOAD_END, q, m1) == (Success, q, m1);
  }

  function MainCall(): Link { Link(R_PPC_REL24, 0x0200_0000, 0, DEST, TARGET + 8) }

  function SystemCall(): RelocationData {
    RelocationData(R_PPC_REL24, 4, 0, TARGET, "OSReport", ImportRPL("coreinit", false))
  }

  lemma SampleLists()
    ensures var elf := SampleFile();
            && |elf| == 4 && |elf[1].entries| == 2 && elf[0].Allocated()
            && (forall k :: 0 <= k < 4 ==> elf[k].info == 0 && (k != 1 ==> elf[k].entries == []))
  {
    hide Section.Allocated;
    SampleShape();
  }

  lemma SampleAct()
    ensures var elf := SampleFile();
            !IsImport(elf, elf[1], 0) && EntryAct(elf, elf[1], 0, DEST, TARGET, TARGET + 12) == Apply(MainCall())
  {
  }

  lemma SampleIds()
    ensures SectionIds(SampleFile(), 0, 0) == [Id(1, 0)]
  {
    hide SampleFile, IsImport;
    SampleLists();
    SampleImports();
    var elf := SampleFile();
    assert EntryIds(elf, 1, 2) == [] && EntryIds(elf, 1, 1) == [];
    assert EntryIds(elf, 1, 0) == [Id(1, 0)];
    assert SectionIds(elf, 0, 4) == [] && SectionIds(elf, 0, 3) == [] && SectionIds(elf, 0, 2) == [];
    assert SectionIds(elf, 0, 1) == [Id(1, 0)];
  }

  lemma SampleActs()
    ensures ModuleActs(SampleFile(), [DEST, 0, 0, 0], 0, TARGET, TARGET + 12) == [Apply(MainCall())]
  {
    hide Section.Allocated, SampleFile, IsImport, EntryAct, SectionIds;
    SampleLists();
    SampleShape();
    SampleIds();
    SampleAct();
    var elf := SampleFile();
    var dests: seq<word> := [DEST, 0, 0, 0];
    assert ModuleActs(elf, dests, 4, TARGET, TARGET + 12) == [];
    assert ModuleActs(elf, dests, 3, TARGET, TARGET + 12) == [];
    assert ModuleActs(elf, dests, 2, TARGET, TARGET + 12) == [];
    assert ModuleActs(elf, dests, 1, TARGET, TARGET + 12) == [];
    assert SectionActs(elf, 0, 0, DEST, TARGET, TARGET + 12) == [Apply(MainCall())];
  }

  lemma SampleImport()
    ensures var elf := SampleFile();
            && IsImport(elf, elf[1], 1) && RplOf(elf, elf[1], 1).Some?
            && Deferred(elf, [DEST, 0, 0, 0], elf[1], 1) == SystemCall()
            && GetSymbol(elf, elf[1], elf[1].entries[0].symbol).Some?
                && GetSymbol(elf, elf[1], elf[1].entries[1].symbol).Some?
  {
    hide RplOf;
    SampleImports();
  }

  lemma SampleDeferred()
    ensures WellFormed(SampleFile())
    ensures ModuleImports(SampleFile(), [DEST, 0, 0, 0], 0) == Some([SystemCall()])
  {
    hide SampleFile, IsImport, RplOf, Deferred, GetSymbol, SystemCall;
    SampleLists();
    SampleShape();
    SampleImports();
    SampleImport();
    var elf := SampleFile();
    var dests: seq<word> := [DEST, 0, 0, 0];
    var none: seq<RelocationData> := [];
    assert [SystemCall()] + none == [SystemCall()] && none + [SystemCall()] == [SystemCall()] && none + none == none;
    assert SectionImports(elf, dests, elf[1], 2) == Some([]);
    assert SectionImports(elf, dests, elf[1], 1) == Some([SystemCall()]);
    assert SectionImports(elf, dests, elf[1], 0) == Some([SystemCall()]);
    assert ModuleImports(elf, dests, 4) == Some([]);
    assert ModuleImports(elf, dests, 3) == Some([]);
    assert ModuleImports(elf, dests, 2) == Some([]);
    assert ModuleImports(elf, dests, 1) == Some([SystemCall()]);
  }

  lemma MainIsNear(t: Table)
    requires t.InMemory() && t == Table(0x0080_0100, 500)
    ensures !MainCall().Far() && Linkable(MainCall()) && OffTable(t, MainCall())
  {
  }

  lemma SampleLinks(m: Mem, t: Table)
    requires t.InMemory() && t == Table(0x0080_0100, 500) && Available(m, t, 0)
    ensures LinkOne(m, t, MainCall(), RELOC_TRAMP_FIXED).ok
    ensures Available(LinkOne(m, t, MainCall(), RELOC_TRAMP_FIXED).mem, t, 0)
  {
    hide LinkOne, PutBytes, Field, Status, MainCall, Linkable, OffTable, Link.Far;
    MainIsNear(t);
    LinkOneIsRelocate(m, t, MainCall(), RELOC_TRAMP_FIXED);
    RelocateEntry(m, t, MainCall(), RELOC_TRAMP_FIXED, 0);
  }

  lemma SampleFarLink(m: Mem, t: Table)
    requires t.InMemory() && t == Table(0x0080_0100, 500) && Available(m, t, 0)
    ensures LinkOne(m, t, ImportLink(SystemCall(), 0x0C00_0000), RELOC_TRAMP_IMPORT_DONE).ok
  {
    hide LinkOne, Relocate, Status;
    LinkOneIsRelocate(m, t, ImportLink(SystemCall(), 0x0C00_0000), RELOC_TRAMP_IMPORT_DONE);
    FarLinkZeroAddend(m, t, ImportLink(SystemCall(), 0x0C00_0000), RELOC_TRAMP_IMPORT_DONE);
  }

  lemma LoadedKeepsSlot(m: Mem, t: Table)
    requires t.InMemory() && t == Table(0x0080_0100, 500) && Available(m, t, 0)
    ensures Available(TextLoaded(m), t, 0)
  {
    hide PutBytes, GetBytes;
    GetPutOther(m, TARGET, Text().data, t.Slot(0) + 16, 4);
  }

  lemma SampleLoads(m: Mem, t: Table) returns (m2: Mem)
    requires t.InMemory() && t == Table(0x0080_0100, 500) && Available(m, t, 0)
    ensures WellFormed(SampleFile()) && Available(m2, t, 0)
    ensures LoadModule(m, SampleFile(), 0x0200_0000, PAYLOAD_END, 0x007C_0000, t)
            == (LoadResult.Loaded(ModuleData([SystemCall()], (0, 0), (0, 0), TARGET)), m2)
  {
    hide And, Room, PutBytes, Place, ModuleActs, ModuleImports, SampleFile, MainCall, SystemCall, LinkOne, TextLoaded,
         Available;
    SampleAddresses();
    SamplePlaced(m);
    SampleActs();
    SampleDeferred();
    LoadedKeepsSlot(m, t);
    SampleLinks(TextLoaded(m), t);
    m2 := LinkOne(TextLoaded(m), t, MainCall(), RELOC_TRAMP_FIXED).mem;
    assert RunActs(m2, t, []) == (Success, m2);
    assert RunActs(TextLoaded(m), t, [Apply(MainCall())]) == (Success, m2);
  }

  /** Whatever memory holds, the payload starts, provided that the first slot is available. */
  lemma SampleStarts(m: Mem)
    requires ModuleTable(CODE_END).InMemory() && Available(m, ModuleTable(CODE_END), 0)
    ensures Started(m, CODE_END, SampleFile(), 0x0200_0000, OneExport())
  {
    hide And, Room, LoadModule, SampleFile, SystemCall, LinkOne, Available, Clean;
    SampleAddresses();
    SampleIsClean();
    var t := Table(0x0080_0100, 500);
    var m2 := SampleLoads(m, t);
    SampleFarLink(m2, t);
    assert ImportAddress(OneExport(), SystemCall()) == Some(0x0C00_0000);
    var r := LinkOne(m2, t, ImportLink(SystemCall(), 0x0C00_0000), RELOC_TRAMP_IMPORT_DONE);
    assert RunImports(r.mem, t, [], OneExport()) == Result(true, r.mem);
    assert RunImports(m2, t, [SystemCall()], OneExport()) == Result(true, r.mem);
  }

  // ----- its calls -----

  lemma LoadedWords(m: Mem)
    ensures GetWord(TextLoaded(m), TARGET) == 0x4800_0001 && GetWord(TextLoaded(m), TARGET + 4) == 0x4800_0001
    ensures Opcode(0x4800_0001) == 18 && !Absolute(0x4800_0001)
    ensures WellFormed(SampleFile()) && PayloadStart(SampleFile()) == TARGET
    ensures LoadedImage(m, SampleFile()) == TextLoaded(m)
  {
    hide PutBytes, GetBytes, Room, And, Place;
    var bytes := Text().data;
    SampleAddresses();
    SamplePlaced(m);
    GetPut(m, TARGET, bytes);
    GetPart(TextLoaded(m), TARGET, 12, 0, 4);
    GetPart(TextLoaded(m), TARGET, 12, 4, 4);
  }

  /** The call to main goes to main. */
  lemma MainIsCalled(m: Mem, s: Cpu)
    requires ModuleTable(CODE_END).InMemory() && Available(m, ModuleTable(CODE_END), 0) && s.pc == TARGET
    ensures WellFormed(SampleFile())
    ensures Run(Start(m, CODE_END, SampleFile(), 0x0200_0000, OneExport()).1, s, 1)
            == Some(s.(pc := TARGET + 8, lr := LinkRegister(s, 0x4800_0001)))
  {
    hide Started, Start, Run, LinkRegister, Available, GetWord, Opcode, Absolute, LoadedImage, PayloadStart;
    SampleStarts(m);
    LoadedWords(m);
    MainEntry();
    SampleImports();
    SampleEntries(Id(1, 0));
    PayloadCallReaches(m, CODE_END, SampleFile(), 0x0200_0000, OneExport(), Id(1, 0), 0, 0x0200_0008, s);
  }

  lemma MainEntry()
    ensures var elf, id := SampleFile(), Id(1, 0);
            && ValidId(elf, id) && Patched(elf, id) == 0 && Kept(elf, 0)
            && EntryOf(elf, id) == Reloc(0x0200_0000, 0, R_PPC_REL24, 0)
            && SymbolOf(elf, id) == Some(Symbol("main", 0x0200_0008, 0))
            && Occupies(elf[0]) && Holds(elf[0], 0x0200_0008)
            && LoadedAt(elf, TARGET, 0, 0x0200_0000) == TARGET && LoadedAt(elf, TARGET, 0, 0x0200_0008) == TARGET + 8
  {
    SampleShape();
  }

  lemma SampleImportIds()
    ensures ImportIds(SampleFile(), 0) == [Id(1, 1)] && RelocationsOnly(SampleFile())
  {
    hide SampleFile, IsImport, RelocationsOnly;
    SampleLists();
    SampleShape();
    SampleImports();
    var elf := SampleFile();
    assert ImportEntryIds(elf, 1, 2) == [];
    assert ImportEntryIds(elf, 1, 1) == [Id(1, 1)];
    assert ImportEntryIds(elf, 1, 0) == [Id(1, 1)];
    assert ImportIds(elf, 4) == [] && ImportIds(elf, 3) == [] && ImportIds(elf, 2) == [];
    assert ImportIds(elf, 1) == [Id(1, 1)];
  }

  function PlannedCall(): Op { Op(Link(R_PPC_REL24, TARGET + 4, 0, 0, 0x0C00_0000), RELOC_TRAMP_IMPORT_DONE) }

  lemma SystemEntry()
    ensures var elf, id := SampleFile(), Id(1, 1);
            && ValidId(elf, id) && Patched(elf, id) == 0 && Kept(elf, 0)
            && EntryOf(elf, id) == Reloc(0x0200_0004, 1, R_PPC_REL24, 0)
            && LoadedAt(elf, TARGET, 0, 0x0200_0004) == TARGET + 4
            && Export(elf, OneExport(), id) == 0x0C00_0000
  {
    SampleImports();
  }

  lemma SamplePlan()
    ensures RelocationsOnly(SampleFile()) && ImportPlan(SampleFile(), OneExport()) == [PlannedCall()]
    ensures PlannedCall().link.Far() && PlannedCall().link.Value() == 0x0C00_0000 && LastFar([PlannedCall()]) == 0
  {
    hide SampleFile, ImportIds, PayloadStart, LoadedAt, Export, ModuleTable, ModuleDataStart, Room;
    SampleAddresses();
    SampleImportIds();
    SystemEntry();
  }

  lemma SystemCallRuns(m: Mem, s: Cpu)
    requires s.pc == TARGET + 4
    ensures WellFormed(SampleFile()) && |ImportIds(SampleFile(), 0)| == 1
            && ImportCall(m, SampleFile(), OneExport(), 0, s)
    ensures GetWord(LoadedImage(m, SampleFile()), s.pc) == 0x4800_0001
  {
    hide GetWord, Opcode, Absolute, LoadedImage, PayloadStart, ImportIds, SampleFile, LoadedAt, Kept;
    LoadedWords(m);
    SampleImportIds();
    SystemEntry();
  }

  /** The call to the system goes through a stub to the system's function. */
  lemma SystemIsCalled(m: Mem, s: Cpu)
    requires ModuleTable(CODE_END).InMemory() && Available(m, ModuleTable(CODE_END), 0) && s.pc == TARGET + 4
    ensures WellFormed(SampleFile())
    ensures Run(Start(m, CODE_END, SampleFile(), 0x0200_0000, OneExport()).1, s, 5)
            == Some(s.(pc := 0x0C00_0000, lr := LinkRegister(s, 0x4800_0001), ctr := 0x0C00_0000,
                       gpr := s.gpr[11 := 0x0C00_0000]))
  {
    hide Started, Start, Run, LinkRegister, Available, GetWord, LoadedImage, ImportIds, ImportCall, SampleFile,
         PlannedCall, ImportPlan, Link.Far, Link.Value, LastFar;
    SampleStarts(m);
    SystemCallRuns(m, s);
    SamplePlan();
    PayloadImportWorks(m, CODE_END, SampleFile(), 0x0200_0000, OneExport(), 0, s);
  }
}

/** The loader as a whole: ModuleDataFactory::load, doRelocation and do_start. */
module Loader {
  import opened Bits
  import opened Memory
  import opened Wrappers
  import opened ElfUtils
  import opened ElfFile
  import opened Layout
  import opened ModuleDataFactory
  import opened Imports

  datatype ModuleData = ModuleData(
    relocations: seq<RelocationData>, bss: (word, word), sbss: (word, word), entrypoint: word)

  datatype LoadResult = Loaded(data: ModuleData) | NotLoaded | Fatal

  // ----- load -----

  /** load on the sections of a parsed file with the given entry point. */
  function LoadModule(m: Mem, elf: Elf, entry: word, destinationAddress: word, maximumSize: word, t: Table)
    : (LoadResult, Mem)
    requires WellFormed(elf) && t.InMemory()
  {
    var room := W(Room(elf));
    var target := TargetAddress(destinationAddress, room);
    if room > maximumSize then (NotLoaded, m)
    else
      var (placed, p, m1) := Place(elf, 0, target, destinationAddress, InitialPlacement(elf, target), m);
      if placed == Failure then (NotLoaded, m1)
      else if placed == Halted then (Fatal, m1)
      else
        var (linked, m2) := RunActs(m1, t, ModuleActs(elf, p.dests, 0, target, p.base));
        if linked == Failure then (NotLoaded, m2)
        else if linked == Halted then (Fatal, m2)
        else match ModuleImports(elf, p.dests, 0)
          case None => (Fatal, m2)
          case Some(relocations) =>
            (Loaded(ModuleData(relocations, p.bss, p.sbss, Sub(Plus(target, entry), 0x02000000))), m2)
  }

  method Load(mem: array<byte>, elf: Elf, entry: word, destinationAddress: word, maximumSize: word, t: Table)
    returns (result: LoadResult)
    requires mem.Length == 0x1_0000_0000 && WellFormed(elf) && t.InMemory()
    modifies mem
    ensures (result, mem[..]) == LoadModule(old(mem[..]), elf, entry, destinationAddress, maximumSize, t)
  {
    hide Place, RunActs, ModuleActs, ModuleImports, WellFormed, Room;
    var sizeOfModule := SizeOfModule(elf);
    if sizeOfModule > maximumSize { return NotLoaded; }
    var targetAddress := AndWord(Sub(destinationAddress, sizeOfModule), 0xFFFFFF00);
    var offsetText := targetAddress;
    var entrypoint := Sub(Plus(offsetText, entry), 0x02000000);
    var placed, p, offsetData := PlaceSections(mem, elf, targetAddress, destinationAddress);
    if placed == Failure { return NotLoaded; }
    if placed == Halted { return Fatal; }
    FewSections(elf);
    var linked := LinkModule(mem, elf, p.dests, offsetText, offsetData, t);
    if linked == Failure { return NotLoaded; }
    if linked == Halted { return Fatal; }
    var relocations := GetImportRelocationData(elf, p.dests);
    if relocations.None? { return Fatal; }
    result := Loaded(ModuleData(relocations.value, p.bss, p.sbss, entrypoint));
  }

  lemma FewSections(elf: Elf)
    requires WellFormed(elf)
    ensures |elf| < 0x1_0000_0000
  {
  }

  // ----- the import phase -----

  /** The system's dynamic loader: library handles by name, and exports by handle, kind and name; an
      address of 0 means that there is no such export. */
  datatype System = System(acquire: string -> Option<nat>, findExport: (nat, bool, string) -> word)

  /** The address an import resolves to. */
  function ImportAddress(sys: System, r: RelocationData): Option<word> {
    match sys.acquire(r.rpl.name)
    case None => None
    case Some(handle) =>
      var a := sys.findExport(handle, r.rpl.isData, r.name);
      if a == 0 then None else Some(a)
  }

  function ImportLink(r: RelocationData, address: word): Link {
    Link(r.kind, r.offset, r.addend, r.destination, address)
  }

  function RunImports(m: Mem, t: Table, relocData: seq<RelocationData>, sys: System): Result
    requires t.InMemory()
    decreases |relocData|
  {
    if relocData == [] then Result(true, m)
    else match ImportAddress(sys, relocData[0])
      case None => Result(false, m)
      case Some(a) =>
        var r := LinkOne(m, t, ImportLink(relocData[0], a), RELOC_TRAMP_IMPORT_DONE);
        if r.ok then RunImports(r.mem, t, relocData[1..], sys) else r
  }

  /** Libraries are acquired once and remembered; the result is as if each import acquired its own. */
  method DoRelocation(mem: array<byte>, relocData: seq<RelocationData>, t: Table, sys: System) returns (ok: bool)
    requires mem.Length == 0x1_0000_0000 && t.InMemory()
    modifies mem
    ensures Result(ok, mem[..]) == RunImports(old(mem[..]), t, relocData, sys)
  {
    hide LinkOne;
    var usedRPLs: map<string, nat> := map[];
    ghost var all := RunImports(mem[..], t, relocData, sys);
    for i := 0 to |relocData|
      invariant forall name :: name in usedRPLs ==> sys.acquire(name) == Some(usedRPLs[name])
      invariant RunImports(mem[..], t, relocData[i..], sys) == all
    {
      var cur := relocData[i];
      assert relocData[i..][0] == cur && relocData[i..][1..] == relocData[i + 1..];
      var rplName := cur.rpl.name;
      if rplName !in usedRPLs {
        var acquired := sys.acquire(rplName);
        if acquired.None? { return false; }
        usedRPLs := usedRPLs[rplName := acquired.value];
      }
      var functionAddress := sys.findExport(usedRPLs[rplName], cur.rpl.isData, cur.name);
      if functionAddress == 0 { return false; }
      ok := ElfLinkOne(mem, t, ImportLink(cur, functionAddress), RELOC_TYPE_IMPORT);
      if !ok { return; }
    }
    assert relocData[|relocData|..] == [];
    ok := true;
  }

  // ----- do_start -----

  const DYN_LINK_TRAMPOLIN_LIST_LENGTH: nat := 500
  const PAYLOAD_END: word := 0x00FD0000

  /** The first address that the module table may use, from the end of the loader's own code. */
  function ModuleTable(codeEnd: word): Table {
    Table(AndWord(Plus(codeEnd, 0x100), 0xFFFFFF00), DYN_LINK_TRAMPOLIN_LIST_LENGTH)
  }

  /** The lowest address that the payload may use. */
  function ModuleDataStart(codeEnd: word): word {
    AndWord(W(ModuleTable(codeEnd).base + 20 * DYN_LINK_TRAMPOLIN_LIST_LENGTH + 0x10000), 0xFFFF0000)
  }

  datatype StartResult = EntryPoint(address: word) | Reverted | Stopped

  /** Clearing a section whose address was recorded. */
  function Clear(m: Mem, where: (word, word)): Mem {
    if where.0 == 0 then m else PutBytes(m, where.0, seq(where.1, (i: nat) => 0))
  }

  function Start(m: Mem, codeEnd: word, elf: Elf, entry: word, sys: System): (StartResult, Mem)
    requires WellFormed(elf) && ModuleTable(codeEnd).InMemory()
  {
    var t := ModuleTable(codeEnd);
    var (loaded, m1) := LoadModule(m, elf, entry, PAYLOAD_END, Sub(PAYLOAD_END, ModuleDataStart(codeEnd)), t);
    match loaded
    case Fatal => (Stopped, m1)
    case NotLoaded => (Reverted, m1)
    case Loaded(data) =>
      var r := RunImports(m1, t, data.relocations, sys);
      if !r.ok then (Stopped, r.mem)
      else (EntryPoint(data.entrypoint), Clear(Clear(r.mem, data.bss), data.sbss))
  }

  method ClearSection(mem: array<byte>, where: (word, word))
    requires mem.Length == 0x1_0000_0000
    modifies mem
    ensures mem[..] == Clear(old(mem[..]), where)
  {
    if where.0 != 0 {
      StoreBytes(mem, where.0, seq(where.1, (i: nat) => 0));
    }
  }

  const TITLE_ID_ADDRESS: word := 0x00FF_FFF8

  /** The title id is left in memory for the payload. */
  function WithTitleId(m: Mem, titleId: dword): Mem { PutBytes(m, TITLE_ID_ADDRESS, DwordBytes(titleId)) }

  method DoStart(mem: array<byte>, titleId: dword, codeEnd: word, elf: Elf, entry: word, sys: System)
    returns (result: StartResult)
    requires mem.Length == 0x1_0000_0000 && WellFormed(elf) && ModuleTable(codeEnd).InMemory()
    modifies mem
    ensures (result, mem[..]) == Start(WithTitleId(old(mem[..]), titleId), codeEnd, elf, entry, sys)
  {
    hide LoadModule, RunImports, Clear, WellFormed, And, PutBytes, DwordBytes;
    StoreBytes(mem, TITLE_ID_ADDRESS, DwordBytes(titleId));
    var applicationMemoryEnd := AndWord(Plus(codeEnd, 0x100), 0xFFFFFF00);
    var moduleDataStartAddress := W(applicationMemoryEnd + 20 * DYN_LINK_TRAMPOLIN_LIST_LENGTH);
    InTable(codeEnd);
    moduleDataStartAddress := AndWord(W(moduleDataStartAddress as int + 0x10000), 0xFFFF0000);
    var t := Table(applicationMemoryEnd, DYN_LINK_TRAMPOLIN_LIST_LENGTH);
    var loaded := Load(mem, elf, entry, PAYLOAD_END, Sub(PAYLOAD_END, moduleDataStartAddress), t);
    match loaded {
      case Fatal => return Stopped;
      case NotLoaded => return Reverted;
      case Loaded(data) =>
        var ok := DoRelocation(mem, data.relocations, t, sys);
        if !ok { return Stopped; }
        ClearSection(mem, data.bss);
        ClearSection(mem, data.sbss);
        result := EntryPoint(data.entrypoint);
    }
  }

  lemma InTable(codeEnd: word)
    requires ModuleTable(codeEnd).InMemory()
    ensures var e := ModuleTable(codeEnd).base + 20 * DYN_LINK_TRAMPOLIN_LIST_LENGTH;
            W(W(e) + 0x10000) == W(e + 0x10000)
  {
    WrapSum(ModuleTable(codeEnd).base + 20 * DYN_LINK_TRAMPOLIN_LIST_LENGTH, 0x10000);
  }
}

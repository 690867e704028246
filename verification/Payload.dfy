/** The loaded and linked payload: the theorems about do_start as a whole. */
module Payload {
  import opened Bits
  import opened Memory
  import opened Wrappers
  import opened PowerPC
  import opened ElfUtils
  import opened Relocation
  import opened LinkRun
  import opened WholeRun
  import opened ElfFile
  import opened Layout
  import opened LayoutTheorems
  import opened ModuleDataFactory
  import opened Imports
  import opened Loader
  import opened PayloadRun
  import opened Containment

  // ----- the final memory -----

  /** Everything a successful start of a clean payload is known by. */
  ghost predicate Started(m: Mem, codeEnd: word, elf: Elf, entry: word, sys: System) {
    Clean(elf) && Fits(codeEnd, elf) && Start(m, codeEnd, elf, entry, sys).0.EntryPoint?
  }

  /** The image after the layout pass, before any linking. */
  function LoadedImage(m: Mem, elf: Elf): Mem
    requires WellFormed(elf)
  {
    Image(elf, PayloadStart(elf), PAYLOAD_END, m)
  }

  /** Entry id's place is not in a section that is cleared at the end. */
  predicate Kept(elf: Elf, k: nat)
    requires k < |elf|
  {
    elf[k].name != ".bss" && elf[k].name != ".sbss"
  }

  /** Clearing a recorded section leaves alone the table and every kept section. */
  lemma ClearApart(codeEnd: word, elf: Elf, m: Mem, m': Mem, where: (word, word), name: string, a: word, n: nat)
    requires Clean(elf) && Fits(codeEnd, elf) && Room(elf) <= PAYLOAD_END - ModuleDataStart(codeEnd)
    requires |elf| < 0x1_0000_0000 && n <= 0x1_0000_0000
    requires Succeeds(elf, TargetAddress(PAYLOAD_END, Room(elf)), PAYLOAD_END, m)
    requires Recorded(elf, TargetAddress(PAYLOAD_END, Room(elf)), |elf|, where, name)
    requires InTableOrKept(codeEnd, elf, name, a, n)
    ensures GetBytes(Clear(m', where), a, n) == GetBytes(m', a, n)
  {
    hide Room, And, Succeeds, Clean, TargetAddress, ModuleDataStart, LoadAddress, Section.Placed;
    var target := TargetAddress(PAYLOAD_END, Room(elf));
    if where.0 != 0 && where.1 > 0 && n > 0 {
      var k :| 0 <= k < |elf| && elf[k].Placed() && elf[k].name == name
               && where == (LoadAddress(elf, target, k), elf[k].size);
      CleanLayout(elf);
      WindowContains(elf, PAYLOAD_END, m, k);
      WindowAboveTable(codeEnd, Room(elf));
      assert Occupies(elf[k]) by { PlacedOccupies(elf[k]); }
      if !(a + n <= ModuleDataStart(codeEnd)) {
        assert PayloadStart(elf) == target;
        var j :| 0 <= j < |elf| && Occupies(elf[j]) && elf[j].name != name && InSection(elf, target, j, a, n);
        WindowContains(elf, PAYLOAD_END, m, j);
        SectionsApart(elf, m, j, k);
      }
      assert Disjoint(where.0, where.1, a, n);
      GetPutOther(m', where.0, seq(where.1, (i: nat) => 0), a, n);
    } else if where.0 != 0 {
      GetPutOther(m', where.0, seq(where.1, (i: nat) => 0), a, n);
    }
  }

  lemma PlacedOccupies(s: Section)
    requires s.Placed() && s.size > 0
    ensures Occupies(s)
  {
  }

  /** A range of bytes in section j as it is loaded. */
  predicate InSection(elf: Elf, target: word, j: nat, a: word, n: nat)
    requires j < |elf|
  {
    LoadAddress(elf, target, j) <= a && a + n <= LoadAddress(elf, target, j) + elf[j].size
  }

  /** A range of the table, or of a section with a different name. */
  ghost predicate InTableOrKept(codeEnd: word, elf: Elf, name: string, a: word, n: nat)
    requires |elf| < 0x1_0000_0000
  {
    || n == 0
    || a + n <= ModuleDataStart(codeEnd)
    || exists j :: 0 <= j < |elf| && Occupies(elf[j]) && elf[j].name != name
                   && InSection(elf, PayloadStart(elf), j, a, n)
  }

  lemma FieldKept(codeEnd: word, elf: Elf, m: Mem, op: Op, id: Id, name: string)
    requires Clean(elf) && Fits(codeEnd, elf) && Room(elf) <= PAYLOAD_END && |elf| < 0x1_0000_0000
             && IsRelocation(elf, id)
    requires var target := TargetAddress(PAYLOAD_END, Room(elf));
             Succeeds(elf, target, PAYLOAD_END, m) && Stems(elf, Final(elf, target, PAYLOAD_END, m).dests, op, id)
    requires Patched(elf, id) < |elf| && elf[Patched(elf, id)].name != name
    ensures InTableOrKept(codeEnd, elf, name, op.link.Target(), op.link.Width())
  {
    hide Room, And, Succeeds, Clean, TargetAddress, ModuleDataStart, LoadAddress, Final, IsRelocation, Occupies;
    if op.link.Width() > 0 {
      CleanWithin(elf, id);
      FieldPlace(elf, m, op, id);
      assert PayloadStart(elf) == TargetAddress(PAYLOAD_END, Room(elf));
      assert InSection(elf, PayloadStart(elf), Patched(elf, id), op.link.Target(), op.link.Width());
    }
  }

  lemma SlotKept(codeEnd: word, elf: Elf, i: nat, name: string)
    requires Fits(codeEnd, elf) && Room(elf) <= PAYLOAD_END - ModuleDataStart(codeEnd) && |elf| < 0x1_0000_0000
    requires i < ModuleTable(codeEnd).length
    ensures InTableOrKept(codeEnd, elf, name, ModuleTable(codeEnd).Slot(i), 20)
  {
    hide Room, And, TargetAddress, ModuleDataStart;
    WindowAboveTable(codeEnd, Room(elf));
  }

  /** What is in place outside the cleared sections stays in place. */
  lemma ClearKeepsInPlace(codeEnd: word, elf: Elf, m: Mem, m': Mem, op: Op, id: Id, was: seq<byte>, i: nat)
    requires Clean(elf) && Fits(codeEnd, elf) && Room(elf) <= PAYLOAD_END - ModuleDataStart(codeEnd)
    requires |elf| < 0x1_0000_0000 && IsRelocation(elf, id)
    requires var target := TargetAddress(PAYLOAD_END, Room(elf));
             Succeeds(elf, target, PAYLOAD_END, m) && Stems(elf, Final(elf, target, PAYLOAD_END, m).dests, op, id)
    requires Patched(elf, id) < |elf| && Kept(elf, Patched(elf, id))
    requires |was| == op.link.Width() && InPlace(m', ModuleTable(codeEnd), op, was, i)
    ensures var p := Final(elf, TargetAddress(PAYLOAD_END, Room(elf)), PAYLOAD_END, m);
            InPlace(Clear(Clear(m', p.bss), p.sbss), ModuleTable(codeEnd), op, was, i)
  {
    hide Room, And, Succeeds, Clean, TargetAddress, ModuleDataStart, LoadAddress, Final, IsRelocation, Occupies,
         Clear, Field, Linkable, StubInReach, InTableOrKept, Recorded, GetBytes, StubBytes, WordBytes, WordOf, Stems;
    CleanLayout(elf);
    var target := TargetAddress(PAYLOAD_END, Room(elf));
    var p := Final(elf, target, PAYLOAD_END, m);
    BssRecorded(elf, target, PAYLOAD_END, m);
    FieldKept(codeEnd, elf, m, op, id, ".bss");
    FieldKept(codeEnd, elf, m, op, id, ".sbss");
    var l := op.link;
    ClearApart(codeEnd, elf, m, m', p.bss, ".bss", l.Target(), l.Width());
    ClearApart(codeEnd, elf, m, Clear(m', p.bss), p.sbss, ".sbss", l.Target(), l.Width());
    if l.Far() {
      SlotKept(codeEnd, elf, i, ".bss");
      SlotKept(codeEnd, elf, i, ".sbss");
      var slot := ModuleTable(codeEnd).Slot(i);
      ClearApart(codeEnd, elf, m, m', p.bss, ".bss", slot, 20);
      ClearApart(codeEnd, elf, m, Clear(m', p.bss), p.sbss, ".sbss", slot, 20);
    }
  }

  /** An entry that is not an import has its place in the link pass. */
  lemma LinkIndex(elf: Elf, id: Id) returns (x: nat)
    requires Clean(elf) && IsRelocation(elf, id) && !IsImport(elf, elf[id.section], id.entry)
    ensures |elf| < 0x1_0000_0000 && x < |LinkIds(elf, 0)| && AllIds(elf)[x] == LinkIds(elf, 0)[x] == id
  {
    hide IsImport, LinkIds, WellNamed, TextFirst, RangesApart;
    CountLinks(elf, 0, id);
    assert id in multiset(LinkIds(elf, 0));
    x :| 0 <= x < |LinkIds(elf, 0)| && LinkIds(elf, 0)[x] == id;
  }

  /** op is in place in the final memory, its field having held what was loaded there. */
  ghost predicate LastsInPlace(m: Mem, codeEnd: word, elf: Elf, entry: word, sys: System, op: Op, slot: nat)
    requires WellFormed(elf) && ModuleTable(codeEnd).InMemory()
  {
    InPlace(Start(m, codeEnd, elf, entry, sys).1, ModuleTable(codeEnd), op,
            GetBytes(LoadedImage(m, elf), op.link.Target(), op.link.Width()), slot)
  }

  /** op is what entry x turns into. */
  ghost predicate EntryFor(m: Mem, elf: Elf, sys: System, x: nat, op: Op)
    requires WellFormed(elf) && |elf| < 0x1_0000_0000 && x < |AllIds(elf)|
  {
    var p, id := Final(elf, PayloadStart(elf), PAYLOAD_END, m), AllIds(elf)[x];
    && Stems(elf, p.dests, op, id) && IsRelocation(elf, id)
    && (x < |LinkIds(elf, 0)| ==> Linked(elf, p, op, id))
    && (x >= |LinkIds(elf, 0)| ==> Imported(elf, p, sys, op, id))
    && op.link.Target() == LoadedAt(elf, PayloadStart(elf), Patched(elf, id), EntryOf(elf, id).offset)
    && p.base == BaseOf(elf, PayloadStart(elf), |elf|)
  }

  /** After a successful start of a clean payload, entry x is in place in the final memory, unless it is a
      far import. */
  lemma EntryInPlace(m: Mem, codeEnd: word, elf: Elf, entry: word, sys: System, x: nat) returns (op: Op, slot: nat)
    requires Started(m, codeEnd, elf, entry, sys)
    requires |elf| < 0x1_0000_0000 && x < |AllIds(elf)|
    requires ValidId(elf, AllIds(elf)[x]) && Patched(elf, AllIds(elf)[x]) < |elf|
             && Kept(elf, Patched(elf, AllIds(elf)[x]))
    ensures EntryFor(m, elf, sys, x, op)
    ensures !(op.link.Far() && x >= |LinkIds(elf, 0)|) ==>
            LastsInPlace(m, codeEnd, elf, entry, sys, op, slot)
  {
    hide Room, And, Succeeds, TargetAddress, ModuleDataStart, LoadAddress, Final, IsRelocation, Occupies, Clear,
         InPlace, GetBytes, Linked, Imported, IsImport, Start, Image, RunLinks, SlotOf, LinkIds, BaseOf, LoadedAt,
         Clean, WellNamed, AllIds;
    CleanParts(elf);
    var ops := StartIsRun(m, codeEnd, elf, entry, sys);
    IdsDistinct(elf);
    var target, id := PayloadStart(elf), AllIds(elf)[x];
    var p, image := Final(elf, target, PAYLOAD_END, m), Image(elf, target, PAYLOAD_END, m);
    RunIsSeparate(codeEnd, elf, m, sys, ops);
    op := ops[x];
    slot := SlotOf(image, ModuleTable(codeEnd), ops, x);
    LayoutFormula(elf, target, PAYLOAD_END, m);
    CleanWithin(elf, id);
    PlaceIsLoadedAt(elf, target, Patched(elf, id), EntryOf(elf, id).offset);
    if !(op.link.Far() && x >= |LinkIds(elf, 0)|) {
      LinkedLasts(elf, p, op, id);
      RunImage(image, ModuleTable(codeEnd), ops, x);
      ClearKeepsInPlace(codeEnd, elf, m, RunLinks(image, ModuleTable(codeEnd), ops).mem, op, id,
                        GetBytes(image, op.link.Target(), op.link.Width()), slot);
    }
  }

  lemma LinkedLasts(elf: Elf, p: Placement, op: Op, id: Id)
    ensures Linked(elf, p, op, id) ==> Lasting(op.mark)
  {
  }

  /** After a successful start of a clean payload, every relocation that is not an import is in place in
      the final memory: its field is the ABI's function of the bytes that were loaded there, its symbol
      (absolute, or of an ordinary section) at the address that linking gives it; a far branch has a stub
      of its own. */
  lemma PayloadLinked(m: Mem, codeEnd: word, elf: Elf, entry: word, sys: System, id: Id) returns (op: Op, slot: nat)
    requires Started(m, codeEnd, elf, entry, sys)
    requires IsRelocation(elf, id) && !IsImport(elf, elf[id.section], id.entry)
    requires Patched(elf, id) < |elf| && Kept(elf, Patched(elf, id))
    ensures op.link.kind == EntryOf(elf, id).kind && op.link.addend == EntryOf(elf, id).addend
    ensures op.mark == RELOC_TRAMP_FIXED
    ensures op.link.Target() == LoadedAt(elf, PayloadStart(elf), Patched(elf, id), EntryOf(elf, id).offset)
    ensures var symbol := SymbolOf(elf, id);
            && symbol.Some?
            && (symbol.value.sectionIndex == SHN_ABS || symbol.value.sectionIndex <= SHN_LORESERVE)
            && Resolve(symbol.value.value, PayloadStart(elf), BaseOf(elf, PayloadStart(elf), |elf|))
               == Resolved(op.link.symbolAddr)
    ensures LastsInPlace(m, codeEnd, elf, entry, sys, op, slot)
  {
    hide Started, InPlace, GetBytes, IsImport, Start, Image, LinkIds, LoadedAt, IsRelocation, Resolve, PayloadStart,
         BaseOf, Clean, Final, SymbolOf, Fits, Kept;
    StartedParts(m, codeEnd, elf, entry, sys);
    var x := LinkIndex(elf, id);
    op, slot := EntryInPlace(m, codeEnd, elf, entry, sys, x);
  }

  /** A near import is in place, too, with the address of the system's export for its symbol. */
  lemma PayloadImported(m: Mem, codeEnd: word, elf: Elf, entry: word, sys: System, id: Id) returns (op: Op, slot: nat)
    requires Started(m, codeEnd, elf, entry, sys)
    requires IsRelocation(elf, id) && IsImport(elf, elf[id.section], id.entry)
    requires Patched(elf, id) < |elf| && Kept(elf, Patched(elf, id))
    ensures op.link.kind == EntryOf(elf, id).kind && op.link.addend == EntryOf(elf, id).addend
    ensures op.link.Target() == LoadedAt(elf, PayloadStart(elf), Patched(elf, id), EntryOf(elf, id).offset)
    ensures op.link.symbolAddr == Export(elf, sys, id) && op.link.symbolAddr != 0
    ensures !op.link.Far() ==>
              LastsInPlace(m, codeEnd, elf, entry, sys, op, slot)
  {
    hide Started, InPlace, GetBytes, Start, Image, LinkIds, ImportIds, LoadedAt, IsRelocation, Clean, Final, Fits,
         Kept, RplOf, Room, And;
    StartedParts(m, codeEnd, elf, entry, sys);
    var x := ImportIndex(elf, id);
    op, slot := EntryInPlace(m, codeEnd, elf, entry, sys, x);
  }

  lemma ImportIndex(elf: Elf, id: Id) returns (x: nat)
    requires Clean(elf) && IsRelocation(elf, id) && IsImport(elf, elf[id.section], id.entry)
    ensures |elf| < 0x1_0000_0000 && |LinkIds(elf, 0)| <= x < |AllIds(elf)| && AllIds(elf)[x] == id
  {
    hide IsImport, LinkIds, ImportIds, WellNamed, TextFirst, RangesApart;
    CountImports(elf, 0, id);
    assert id in multiset(ImportIds(elf, 0));
    var y :| 0 <= y < |ImportIds(elf, 0)| && ImportIds(elf, 0)[y] == id;
    x := |LinkIds(elf, 0)| + y;
  }

  lemma CleanParts(elf: Elf)
    requires Clean(elf)
    ensures WellFormed(elf) && WellNamed(elf) && |elf| < 0x1_0000_0000
  {
  }

  /** The payload's branches work when it is entered, near ones with any addend. */
  lemma PayloadBranchWorks(m: Mem, codeEnd: word, elf: Elf, entry: word, sys: System, id: Id, s: Cpu) returns (op: Op)
    requires Started(m, codeEnd, elf, entry, sys)
    requires IsRelocation(elf, id) && !IsImport(elf, elf[id.section], id.entry)
    requires Patched(elf, id) < |elf| && Kept(elf, Patched(elf, id))
    requires EntryOf(elf, id).kind == R_PPC_REL24
    requires s.pc == LoadedAt(elf, PayloadStart(elf), Patched(elf, id), EntryOf(elf, id).offset) && s.pc % 4 == 0
    requires var was := GetWord(LoadedImage(m, elf), s.pc); Opcode(was) == 18 && !Absolute(was)
    ensures op.link.kind == R_PPC_REL24 && op.link.Target() == s.pc && op.link.addend == EntryOf(elf, id).addend
    ensures SymbolOf(elf, id).Some?
            && Resolve(SymbolOf(elf, id).value.value, PayloadStart(elf), BaseOf(elf, PayloadStart(elf), |elf|))
               == Resolved(op.link.symbolAddr)
    ensures (op.link.Far() ==> op.link.addend == 0) ==>
              (BranchWorks(Start(m, codeEnd, elf, entry, sys).1, op.link, GetWord(LoadedImage(m, elf), s.pc), s)
               <==> (op.link.Far() ==> op.link.Value() % 4 == 0))
  {
    hide Started, IsRelocation, InPlace, GetBytes, Resolve, SymbolOf, IsImport, Start, Image, LoadedAt, Opcode,
         Absolute, BranchWorks, BaseOf, PayloadStart, Clean, Fits, WordOf, Patched;
    var slot;
    StartedParts(m, codeEnd, elf, entry, sys);
    op, slot := PayloadLinked(m, codeEnd, elf, entry, sys, id);
    if op.link.Far() ==> op.link.addend == 0 {
      InPlaceWorks(Start(m, codeEnd, elf, entry, sys).1, ModuleTable(codeEnd), op,
                   GetBytes(LoadedImage(m, elf), op.link.Target(), 4), slot, s);
    }
  }

  lemma StartedParts(m: Mem, codeEnd: word, elf: Elf, entry: word, sys: System)
    requires Started(m, codeEnd, elf, entry, sys)
    ensures Clean(elf) && WellFormed(elf) && ModuleTable(codeEnd).InMemory()
    ensures forall id :: IsRelocation(elf, id) ==> ValidId(elf, id)
  {
  }

  /** The address that linking gives to a symbol is the one its byte is loaded at; so is the entry point
      that do_start returns. */
  lemma SymbolIsLoaded(m: Mem, codeEnd: word, elf: Elf, entry: word, sys: System, k: nat, v: word)
    requires Started(m, codeEnd, elf, entry, sys) && k < |elf| && Occupies(elf[k]) && Holds(elf[k], v)
    ensures Resolve(v, PayloadStart(elf), BaseOf(elf, PayloadStart(elf), |elf|))
            == Resolved(LoadedAt(elf, PayloadStart(elf), k, v))
    ensures v == entry && elf[k].IsText() ==>
              Start(m, codeEnd, elf, entry, sys).0.address == LoadedAt(elf, PayloadStart(elf), k, v)
  {
    hide Room, And, Succeeds, TargetAddress, Start, Image, LoadedAt, OpsFor, RunLinks, Final, ModuleDataStart,
         Resolve, Holds, BaseOf, Section.IsText, Occupies, WellNamed, Clean;
    CleanParts(elf);
    CleanLayout(elf);
    var ops := StartIsRun(m, codeEnd, elf, entry, sys);
    var target := PayloadStart(elf);
    RoomCovers(elf, |elf|);
    MapsAgreeExactly(elf, target, PAYLOAD_END, m);
    LayoutFormula(elf, target, PAYLOAD_END, m);
    assert Agrees(elf, target, Final(elf, target, PAYLOAD_END, m).base, k);
    if elf[k].IsText() && v == entry {
      EntryPointAgrees(elf, target, PAYLOAD_END, m, k, entry);
    }
  }

  /** The window is small: within the payload every branch is near. */
  lemma DefinedIsNear(l: Link)
    requires l.Target() < 0x0100_0000 && l.Value() < 0x0100_0000
    ensures !l.Far()
  {
  }

  /** A symbol value and a section in the same region of virtual addresses, text or data. */
  predicate SameRegion(s: Section, value: word) {
    (s.IsText() && 0x02000000 <= value < 0x10000000) || (s.IsData() && 0x10000000 <= value < 0xC0000000)
  }

  /** Within a region, linking commutes with adding an addend to the virtual address. */
  lemma ResolveShifts(s: Section, value: word, addend: sword, v: word, baseText: word, baseData: word, a: word, b: word)
    requires SameRegion(s, value) && SameRegion(s, v) && v == value + addend
    requires Resolve(value, baseText, baseData) == Resolved(a) && Resolve(v, baseText, baseData) == Resolved(b)
    ensures W(a + addend) == b
  {
    hide Section.IsText, Section.IsData, SameRegion, Resolve, W;
    var base := if s.IsText() then baseText else baseData;
    ResolvesBy(s, value, baseText, baseData);
    ResolvesBy(s, v, baseText, baseData);
    ShiftedSum(value - Region(s), base, addend);
  }

  lemma ShiftedSum(x: int, base: int, addend: int)
    ensures W(W(W(x) + base) + addend) == W(W(x + addend) + base)
  {
    hide W;
    WrapSum(x, base);
    WrapSum(x + base, addend);
    WrapSum(x + addend, base);
  }

  lemma ResolvesBy(s: Section, value: word, baseText: word, baseData: word)
    requires SameRegion(s, value)
    ensures Resolve(value, baseText, baseData)
            == Resolved(W(W(value - Region(s)) + if s.IsText() then baseText else baseData))
  {
  }

  /** A call from a clean payload to a byte that one of its sections defines, named by a symbol of the same
      region and an addend, takes one step and arrives at that byte: it never needs a stub. */
  lemma PayloadCallReaches(m: Mem, codeEnd: word, elf: Elf, entry: word, sys: System, id: Id, k: nat, v: word, s: Cpu)
    requires Started(m, codeEnd, elf, entry, sys)
    requires IsRelocation(elf, id) && !IsImport(elf, elf[id.section], id.entry)
    requires Patched(elf, id) < |elf| && Kept(elf, Patched(elf, id))
    requires EntryOf(elf, id).kind == R_PPC_REL24
    requires SymbolOf(elf, id).Some? && v == SymbolOf(elf, id).value.value + EntryOf(elf, id).addend
    requires k < |elf| && Occupies(elf[k]) && Holds(elf[k], v) && SameRegion(elf[k], SymbolOf(elf, id).value.value)
    requires s.pc == LoadedAt(elf, PayloadStart(elf), Patched(elf, id), EntryOf(elf, id).offset) && s.pc % 4 == 0
    requires var was := GetWord(LoadedImage(m, elf), s.pc); Opcode(was) == 18 && !Absolute(was)
    ensures Run(Start(m, codeEnd, elf, entry, sys).1, s, 1)
            == Some(s.(pc := LoadedAt(elf, PayloadStart(elf), k, v),
                       lr := LinkRegister(s, GetWord(LoadedImage(m, elf), s.pc))))
  {
    hide Started, IsRelocation, GetWord, Resolve, SymbolOf, IsImport, Start, Image, LoadedAt, Opcode, Absolute, Run,
         BaseOf, PayloadStart, Clean, Fits, Holds, Occupies, Patched, LinkRegister, Link.Far, SameRegion, EntryOf;
    StartedParts(m, codeEnd, elf, entry, sys);
    SymbolIsLoaded(m, codeEnd, elf, entry, sys, k, v);
    var op := PayloadBranchWorks(m, codeEnd, elf, entry, sys, id, s);
    var target := PayloadStart(elf);
    assert SameRegion(elf[k], v) by { RegionKept(elf[k], SymbolOf(elf, id).value.value, v); }
    ResolveShifts(elf[k], SymbolOf(elf, id).value.value, op.link.addend, v, target, BaseOf(elf, target, |elf|),
                  op.link.symbolAddr, LoadedAt(elf, target, k, v));
    HoldsInside(elf[k], v);
    PlacesLow(m, codeEnd, elf, entry, sys, k, v);
    FieldLow(m, codeEnd, elf, entry, sys, id);
    DefinedIsNear(op.link);
  }

  lemma RegionKept(s: Section, value: word, v: word)
    requires Holds(s, v) && SameRegion(s, value)
    ensures SameRegion(s, v)
  {
  }

  lemma HoldsInside(s: Section, v: word)
    requires Holds(s, v)
    ensures s.address <= v < s.address + s.size
  {
  }

  lemma PlacesLow(m: Mem, codeEnd: word, elf: Elf, entry: word, sys: System, k: nat, v: word)
    requires Started(m, codeEnd, elf, entry, sys) && k < |elf| && Occupies(elf[k])
    requires elf[k].address <= v < elf[k].address + elf[k].size
    ensures LoadedAt(elf, PayloadStart(elf), k, v) < PAYLOAD_END
  {
    hide Room, And, Succeeds, TargetAddress, Start, Image, OpsFor, RunLinks, Final, ModuleDataStart, WellNamed, Clean,
         Section.Placed, LoadAddress;
    CleanParts(elf);
    CleanLayout(elf);
    var ops := StartIsRun(m, codeEnd, elf, entry, sys);
    WindowContains(elf, PAYLOAD_END, m, k);
  }

  lemma FieldLow(m: Mem, codeEnd: word, elf: Elf, entry: word, sys: System, id: Id)
    requires Started(m, codeEnd, elf, entry, sys) && IsRelocation(elf, id) && FieldWidth(EntryOf(elf, id)) > 0
    ensures Patched(elf, id) < |elf|
    ensures LoadedAt(elf, PayloadStart(elf), Patched(elf, id), EntryOf(elf, id).offset) < PAYLOAD_END
  {
    hide Room, And, Start, LoadedAt, WellNamed;
    assert Within(elf, id);
    PlacedOccupies(elf[Patched(elf, id)]);
    PlacesLow(m, codeEnd, elf, entry, sys, Patched(elf, id), EntryOf(elf, id).offset);
  }

  // ----- the bytes that are not relocated -----

  /** Virtual address v of section k is in no relocation's field. */
  ghost predicate Unrelocated(elf: Elf, k: nat, v: word) {
    forall id :: IsRelocation(elf, id) && Patched(elf, id) == k ==>
      !(EntryOf(elf, id).offset <= v < EntryOf(elf, id).offset + FieldWidth(EntryOf(elf, id)))
  }

  /** Sections of a clean payload are loaded apart. */
  lemma AllApart(elf: Elf, m: Mem, k: nat)
    requires Clean(elf) && Room(elf) <= PAYLOAD_END && |elf| < 0x1_0000_0000 && k < |elf| && elf[k].Placed()
    requires Succeeds(elf, TargetAddress(PAYLOAD_END, Room(elf)), PAYLOAD_END, m)
    ensures ApartFrom(elf, TargetAddress(PAYLOAD_END, Room(elf)), k)
  {
    hide LoadAddress, Room, And, Succeeds, TargetAddress, Clean, Section.Placed;
    var target := TargetAddress(PAYLOAD_END, Room(elf));
    CleanLayout(elf);
    forall j | 0 <= j < |elf| && j != k && elf[j].Placed()
      ensures Disjoint(LoadAddress(elf, target, j), elf[j].size, LoadAddress(elf, target, k), elf[k].size)
    {
      if elf[j].size > 0 && elf[k].size > 0 {
        SectionsApart(elf, m, j, k);
        WindowContains(elf, PAYLOAD_END, m, j);
        WindowContains(elf, PAYLOAD_END, m, k);
      }
    }
  }

  /** The loaded image holds every placed section of a clean payload. */
  lemma ImageHoldsSections(m: Mem, codeEnd: word, elf: Elf, entry: word, sys: System, k: nat)
    requires Started(m, codeEnd, elf, entry, sys) && k < |elf| && elf[k].Placed()
    ensures GetBytes(LoadedImage(m, elf), LoadAddress(elf, PayloadStart(elf), k), elf[k].size) == elf[k].Contents()
  {
    hide LoadAddress, Room, And, Succeeds, TargetAddress, Clean, Section.Placed, Start, Image, GetBytes,
         Section.Contents, RunLinks, OpsFor, WellNamed;
    CleanParts(elf);
    var ops := StartIsRun(m, codeEnd, elf, entry, sys);
    AllApart(elf, m, k);
    ImageHolds(elf, PayloadStart(elf), PAYLOAD_END, m, k);
  }

  /** Every byte of a kept section that is in no relocation's field is, in the final memory, the byte of
      the file (or zero, for NOBITS). */
  lemma PayloadByte(m: Mem, codeEnd: word, elf: Elf, entry: word, sys: System, k: nat, v: word)
    requires Started(m, codeEnd, elf, entry, sys) && k < |elf| && elf[k].Placed() && Kept(elf, k)
    requires elf[k].address <= v < elf[k].address + elf[k].size && Unrelocated(elf, k, v)
    ensures Start(m, codeEnd, elf, entry, sys).1[LoadedAt(elf, PayloadStart(elf), k, v)]
            == elf[k].Contents()[v - elf[k].address]
  {
    hide Room, And, Succeeds, TargetAddress, Clean, Section.Placed, Start, Image, Section.Contents, RunLinks, OpsFor,
         Unrelocated, LoadAddress, Final, ModuleDataStart, Clear, WellNamed, Recorded, InTableOrKept;
    CleanParts(elf);
    var ops := StartIsRun(m, codeEnd, elf, entry, sys);
    var target, t := PayloadStart(elf), ModuleTable(codeEnd);
    var p, image := Final(elf, target, PAYLOAD_END, m), Image(elf, target, PAYLOAD_END, m);
    var a := LoadedAt(elf, target, k, v);
    ImageHoldsSections(m, codeEnd, elf, entry, sys, k);
    ByteInside(elf, m, codeEnd, k, v);
    assert image[a] == elf[k].Contents()[v - elf[k].address] by {
      ByteOf(image, LoadAddress(elf, target, k), elf[k].Contents(), v - elf[k].address);
    }
    ByteUntouched(m, codeEnd, elf, sys, ops, image, k, v);
    BssRecorded(elf, target, PAYLOAD_END, m);
    var m' := RunLinks(image, t, ops).mem;
    ClearApart(codeEnd, elf, m, m', p.bss, ".bss", a, 1);
    ClearApart(codeEnd, elf, m, Clear(m', p.bss), p.sbss, ".sbss", a, 1);
    OneByte(m', Clear(Clear(m', p.bss), p.sbss), a);
  }

  lemma OneByte(m: Mem, m': Mem, a: word)
    requires GetBytes(m', a, 1) == GetBytes(m, a, 1)
    ensures m'[a] == m[a]
  {
    assert GetBytes(m', a, 1)[0] == m'[a] && GetBytes(m, a, 1)[0] == m[a];
  }

  lemma ByteOf(m: Mem, a: word, bs: seq<byte>, k: word)
    requires k < |bs| <= 0x1_0000_0000 && GetBytes(m, a, |bs|) == bs
    ensures m[Plus(a, k)] == bs[k]
  {
    assert GetBytes(m, a, |bs|)[k] == m[Plus(a, k)];
  }

  /** The byte at v lies in its section's part of the window, so outside the table and the cleared sections. */
  lemma ByteInside(elf: Elf, m: Mem, codeEnd: word, k: nat, v: word)
    requires Clean(elf) && Fits(codeEnd, elf) && Room(elf) <= PAYLOAD_END - ModuleDataStart(codeEnd)
             && |elf| < 0x1_0000_0000
    requires Succeeds(elf, PayloadStart(elf), PAYLOAD_END, m)
             && PayloadStart(elf) == TargetAddress(PAYLOAD_END, Room(elf))
    requires k < |elf| && elf[k].Placed() && Kept(elf, k) && elf[k].address <= v < elf[k].address + elf[k].size
    ensures var a := LoadedAt(elf, PayloadStart(elf), k, v);
            && a == LoadAddress(elf, PayloadStart(elf), k) + (v - elf[k].address)
            && InTableOrKept(codeEnd, elf, ".bss", a, 1) && InTableOrKept(codeEnd, elf, ".sbss", a, 1)
            && Disjoint(a, 1, ModuleTable(codeEnd).base, 20 * ModuleTable(codeEnd).length)
  {
    hide Room, And, Succeeds, Clean, TargetAddress, ModuleDataStart, LoadAddress, Section.Placed;
    CleanLayout(elf);
    WindowContains(elf, PAYLOAD_END, m, k);
    WindowAboveTable(codeEnd, Room(elf));
    PlacedOccupies(elf[k]);
    assert InSection(elf, PayloadStart(elf), k, LoadedAt(elf, PayloadStart(elf), k, v), 1);
  }

  lemma ByteUntouched(m: Mem, codeEnd: word, elf: Elf, sys: System, ops: seq<Op>, image: Mem, k: nat, v: word)
    requires Clean(elf) && Fits(codeEnd, elf) && Room(elf) <= PAYLOAD_END - ModuleDataStart(codeEnd)
             && |elf| < 0x1_0000_0000
    requires Succeeds(elf, PayloadStart(elf), PAYLOAD_END, m)
             && PayloadStart(elf) == TargetAddress(PAYLOAD_END, Room(elf))
    requires OpsFor(elf, Final(elf, PayloadStart(elf), PAYLOAD_END, m), sys, ops)
    requires RunLinks(image, ModuleTable(codeEnd), ops).ok
    requires k < |elf| && elf[k].Placed() && Kept(elf, k)
    requires elf[k].address <= v < elf[k].address + elf[k].size && Unrelocated(elf, k, v)
    ensures RunLinks(image, ModuleTable(codeEnd), ops).mem[LoadedAt(elf, PayloadStart(elf), k, v)]
            == image[LoadedAt(elf, PayloadStart(elf), k, v)]
  {
    hide Room, And, Succeeds, Clean, TargetAddress, ModuleDataStart, LoadAddress, Section.Placed, RunLinks, Final,
         AllIds, Stems, IsRelocation, LoadedAt, Linked, Imported, LinkIds, Patched;
    ByteInside(elf, m, codeEnd, k, v);
    IdsDistinct(elf);
    var a := LoadedAt(elf, PayloadStart(elf), k, v);
    forall x | 0 <= x < |ops| ensures Disjoint(ops[x].link.Target(), ops[x].link.Width(), a, 1) {
      ByteOffField(m, codeEnd, elf, ops[x], AllIds(elf)[x], k, v);
    }
    RunKeepsRange(image, ModuleTable(codeEnd), ops, a, 1);
    OneByte(image, RunLinks(image, ModuleTable(codeEnd), ops).mem, a);
  }

  lemma ByteOffField(m: Mem, codeEnd: word, elf: Elf, op: Op, id: Id, k: nat, v: word)
    requires Clean(elf) && Fits(codeEnd, elf) && Room(elf) <= PAYLOAD_END - ModuleDataStart(codeEnd)
             && |elf| < 0x1_0000_0000
    requires Succeeds(elf, PayloadStart(elf), PAYLOAD_END, m)
             && PayloadStart(elf) == TargetAddress(PAYLOAD_END, Room(elf))
    requires IsRelocation(elf, id) && Stems(elf, Final(elf, PayloadStart(elf), PAYLOAD_END, m).dests, op, id)
    requires k < |elf| && elf[k].Placed() && Kept(elf, k)
    requires elf[k].address <= v < elf[k].address + elf[k].size && Unrelocated(elf, k, v)
    ensures Disjoint(op.link.Target(), op.link.Width(), LoadedAt(elf, PayloadStart(elf), k, v), 1)
  {
    hide Room, And, Succeeds, Clean, TargetAddress, ModuleDataStart, LoadAddress, Section.Placed, Final, IsRelocation,
         InTableOrKept, LoadedAt;
    if op.link.Width() > 0 {
      ByteInside(elf, m, codeEnd, k, v);
      CleanWithin(elf, id);
      FieldPlace(elf, m, op, id);
      if Patched(elf, id) == k {
      } else {
        PlacedOccupies(elf[k]);
        SectionsApart(elf, m, Patched(elf, id), k);
      }
    }
  }
}

/** do_start as one run of relocations over the loaded image, and the conditions under which the fields of
    a payload are separate. */
module PayloadRun {
  import opened Bits
  import opened Memory
  import opened Wrappers
  import opened ElfUtils
  import opened Relocation
  import opened LinkRun
  import opened ElfFile
  import opened Layout
  import opened LayoutTheorems
  import opened ModuleDataFactory
  import opened Imports
  import opened Loader

  // ----- the address window -----

  /** The table lies below the payload's window, and rounding the payload's start down by up to 0x100
      bytes does not reach it. */
  lemma WindowAboveTable(codeEnd: word, room: nat)
    requires ModuleTable(codeEnd).InMemory() && codeEnd < 0xF000_0000
    requires ModuleDataStart(codeEnd) <= PAYLOAD_END && room <= PAYLOAD_END - ModuleDataStart(codeEnd)
    ensures ModuleTable(codeEnd).base > codeEnd
    ensures var t := ModuleTable(codeEnd);
            t.base + 20 * t.length < ModuleDataStart(codeEnd) <= TargetAddress(PAYLOAD_END, room) <= PAYLOAD_END
  {
    hide And;
    AndRound8(codeEnd + 0x100);
    var e := ModuleTable(codeEnd).base + 20 * DYN_LINK_TRAMPOLIN_LIST_LENGTH;
    AndRound16(W(e + 0x10000));
    AndRound8(PAYLOAD_END - room);
    RoundedAbove(ModuleDataStart(codeEnd) / 0x1_0000, PAYLOAD_END - room);
  }

  lemma RoundedAbove(q: nat, x: nat)
    requires q * 0x1_0000 <= x
    ensures q * 0x1_0000 <= x / 0x100 * 0x100
  {
    assert q * 0x100 <= x / 0x100;
  }

  // ----- the relocations of a module, as one run -----

  function FixedOps(acts: seq<Act>): (r: seq<Op>)
    requires forall x :: 0 <= x < |acts| ==> acts[x].Apply?
    ensures |r| == |acts|
  {
    seq(|acts|, (x: nat) requires x < |acts| && acts[x].Apply? => Op(acts[x].link, RELOC_TRAMP_FIXED))
  }

  lemma {:induction false} ActsAreLinks(m: Mem, t: Table, acts: seq<Act>)
    requires t.InMemory() && RunActs(m, t, acts).0 == Success
    ensures forall x :: 0 <= x < |acts| ==> acts[x].Apply?
    ensures RunLinks(m, t, FixedOps(acts)) == Result(true, RunActs(m, t, acts).1)
    decreases |acts|
  {
    hide LinkOne;
    if acts != [] {
      var r := LinkOne(m, t, acts[0].link, RELOC_TRAMP_FIXED);
      ActsAreLinks(r.mem, t, acts[1..]);
      assert FixedOps(acts)[1..] == FixedOps(acts[1..]);
    }
  }

  function ImportOps(relocData: seq<RelocationData>, sys: System): (r: seq<Op>)
    requires forall x :: 0 <= x < |relocData| ==> ImportAddress(sys, relocData[x]).Some?
    ensures |r| == |relocData|
  {
    seq(|relocData|, (x: nat) requires x < |relocData| && ImportAddress(sys, relocData[x]).Some? =>
      Op(ImportLink(relocData[x], ImportAddress(sys, relocData[x]).value), RELOC_TRAMP_IMPORT_DONE))
  }

  lemma {:induction false} ImportsAreLinks(m: Mem, t: Table, relocData: seq<RelocationData>, sys: System)
    requires t.InMemory() && RunImports(m, t, relocData, sys).ok
    ensures forall x :: 0 <= x < |relocData| ==> ImportAddress(sys, relocData[x]).Some?
    ensures RunLinks(m, t, ImportOps(relocData, sys)) == RunImports(m, t, relocData, sys)
    decreases |relocData|
  {
    hide LinkOne, ImportAddress;
    if relocData != [] {
      var a := ImportAddress(sys, relocData[0]).value;
      var r := LinkOne(m, t, ImportLink(relocData[0], a), RELOC_TRAMP_IMPORT_DONE);
      ImportsAreLinks(r.mem, t, relocData[1..], sys);
      assert ImportOps(relocData, sys)[1..] == ImportOps(relocData[1..], sys);
    }
  }

  /** Whatever becomes of the import phase, a slot that was not available before it, in particular every
      FIXED one, keeps its stub and its status. */
  lemma {:induction false} ImportRunKeepsFixed(m: Mem, t: Table, relocData: seq<RelocationData>, sys: System, j: nat)
    requires t.InMemory() && (forall x :: 0 <= x < |relocData| ==> OffTable(t, ImportLink(relocData[x], 0)))
    requires j < t.length && !Available(m, t, j)
    ensures Entry(RunImports(m, t, relocData, sys).mem, t, j) == Entry(m, t, j)
    decreases |relocData|
  {
    hide LinkOne, Relocate, ImportAddress, Entry, Status, StubBytes, WordBytes;
    if relocData != [] && ImportAddress(sys, relocData[0]).Some? {
      var l := ImportLink(relocData[0], ImportAddress(sys, relocData[0]).value);
      assert OffTable(t, ImportLink(relocData[0], 0));
      LinkOneIsRelocate(m, t, l, RELOC_TRAMP_IMPORT_DONE);
      RelocateEntry(m, t, l, RELOC_TRAMP_IMPORT_DONE, j);
      var r := Relocate(m, t, l, RELOC_TRAMP_IMPORT_DONE);
      if r.ok { ImportRunKeepsFixed(r.mem, t, relocData[1..], sys, j); }
    }
  }

  lemma {:induction false} RunLinksAppend(m: Mem, t: Table, xs: seq<Op>, ys: seq<Op>)
    requires t.InMemory() && RunLinks(m, t, xs).ok
    ensures RunLinks(m, t, xs + ys) == RunLinks(RunLinks(m, t, xs).mem, t, ys)
    decreases |xs|
  {
    hide LinkOne;
    if xs == [] {
      assert xs + ys == ys;
    } else {
      assert (xs + ys)[0] == xs[0] && (xs + ys)[1..] == xs[1..] + ys;
      RunLinksAppend(LinkOne(m, t, xs[0].link, xs[0].mark).mem, t, xs[1..], ys);
    }
  }

  // ----- the acts and imports by entry -----

  /** The section whose bytes entry id patches. */
  function Patched(elf: Elf, id: Id): nat
    requires ValidId(elf, id)
  {
    elf[id.section].info
  }

  function EntryOf(elf: Elf, id: Id): Reloc
    requires ValidId(elf, id)
  {
    elf[id.section].entries[id.entry]
  }

  /** The link pass applies the entries of LinkIds in order. */
  lemma {:induction false} ActsFollowIds(elf: Elf, dests: seq<word>, i: nat, baseText: word, baseData: word)
    requires i <= |elf| == |dests| && |elf| < 0x1_0000_0000
    ensures var acts, ids := ModuleActs(elf, dests, i, baseText, baseData), LinkIds(elf, i);
            |acts| == |ids| &&
            forall x :: 0 <= x < |ids| ==>
              ValidId(elf, ids[x]) && !IsImport(elf, elf[ids[x].section], ids[x].entry)
              && Patched(elf, ids[x]) < |dests|
              && acts[x] == EntryAct(elf, elf[ids[x].section], ids[x].entry, dests[Patched(elf, ids[x])], baseText,
                  baseData)
    decreases |elf| - i
  {
    hide IsImport, EntryAct, SectionIds, Section.Allocated;
    if i < |elf| { ActsFollowIds(elf, dests, i + 1, baseText, baseData); }
  }

  /** All entries that do_start handles, in order: those of the link pass, then the imports. */
  function AllIds(elf: Elf): seq<Id>
    requires |elf| < 0x1_0000_0000
  {
    LinkIds(elf, 0) + ImportIds(elf, 0)
  }

  // ----- modules whose relocations do not get in each other's way -----

  function FieldWidth(e: Reloc): nat { Link(e.kind, 0, 0, 0, 0).Width() }

  /** The relocation's field lies within the section that it patches. */
  ghost predicate Within(elf: Elf, id: Id)
    requires ValidId(elf, id)
  {
    && Patched(elf, id) < |elf|
    && elf[Patched(elf, id)].Placed()
    && (FieldWidth(EntryOf(elf, id)) > 0 ==>
          && elf[Patched(elf, id)].address <= EntryOf(elf, id).offset
          && EntryOf(elf, id).offset + FieldWidth(EntryOf(elf, id))
             <= elf[Patched(elf, id)].address + elf[Patched(elf, id)].size)
  }

  ghost predicate FieldsApart(elf: Elf, id: Id, id': Id)
    requires ValidId(elf, id) && ValidId(elf, id')
  {
    var e, e' := EntryOf(elf, id), EntryOf(elf, id');
    FieldWidth(e) == 0 || FieldWidth(e') == 0 || e.offset + FieldWidth(e) <= e'.offset
        || e'.offset + FieldWidth(e') <= e.offset
  }

  ghost predicate RangesApart(elf: Elf) {
    forall j, k :: 0 <= j < k < |elf| && Occupies(elf[j]) && Occupies(elf[k]) ==>
      elf[j].address + elf[j].size <= elf[k].address || elf[k].address + elf[k].size <= elf[j].address
  }

  /** What a sensible payload looks like: at most one text section, first and at 0x02000000; sections with
      disjoint addresses; relocation fields inside their sections and apart from each other. */
  ghost predicate Clean(elf: Elf) {
    && WellFormed(elf) && RelocationsOnly(elf) && WellNamed(elf) && TextFirst(elf) && RangesApart(elf)
    && (forall i :: 0 <= i < |elf| && Occupies(elf[i]) && elf[i].IsText() ==> elf[i].address == 0x02000000)
    && (forall id :: IsRelocation(elf, id) ==> Within(elf, id))
    && (forall id, id' | IsRelocation(elf, id) && IsRelocation(elf, id') && id != id' ::
          Patched(elf, id) == Patched(elf, id') ==> FieldsApart(elf, id, id'))
  }

  // ----- do_start as one run over the loaded image -----

  function PayloadStart(elf: Elf): word { TargetAddress(PAYLOAD_END, W(Room(elf))) }

  /** The operation that entry id turns into. */
  ghost predicate Stems(elf: Elf, dests: seq<word>, op: Op, id: Id) {
    && ValidId(elf, id) && Patched(elf, id) < |dests|
    && op.link.kind == EntryOf(elf, id).kind && op.link.addend == EntryOf(elf, id).addend
    && op.link.Target() == Plus(dests[Patched(elf, id)], EntryOf(elf, id).offset)
  }

  /** What makes the link pass apply entry id as `op`: its symbol exists, is defined in an ordinary section
      or absolute, and resolves. */
  ghost predicate Linked(elf: Elf, p: Placement, op: Op, id: Id) {
    && ValidId(elf, id)
    && op.mark == RELOC_TRAMP_FIXED
    && var symbol := SymbolOf(elf, id);
    && symbol.Some?
    && (symbol.value.sectionIndex == SHN_ABS || symbol.value.sectionIndex <= SHN_LORESERVE)
    && Resolve(symbol.value.value, PayloadStart(elf), p.base) == Resolved(op.link.symbolAddr)
  }

  lemma ActStems(elf: Elf, p: Placement, id: Id, act: Act)
    requires ValidId(elf, id) && !IsImport(elf, elf[id.section], id.entry) && Patched(elf, id) < |p.dests|
    requires act.Apply? &&
             act == EntryAct(elf, elf[id.section], id.entry, p.dests[Patched(elf, id)], PayloadStart(elf), p.base)
    ensures Stems(elf, p.dests, Op(act.link, RELOC_TRAMP_FIXED), id)
    ensures Linked(elf, p, Op(act.link, RELOC_TRAMP_FIXED), id)
  {
    hide Room, And;
  }

  function SymbolOf(elf: Elf, id: Id): Option<Symbol>
    requires ValidId(elf, id)
  {
    GetSymbol(elf, elf[id.section], EntryOf(elf, id).symbol)
  }

  /** The system's export for import id, or 0 if there is none. */
  function Export(elf: Elf, sys: System, id: Id): word
    requires ValidId(elf, id)
  {
    var rpl := RplOf(elf, elf[id.section], id.entry);
    if rpl.None? || SymbolOf(elf, id).None? then 0
    else match sys.acquire(rpl.value.name)
      case None => 0
      case Some(handle) => sys.findExport(handle, rpl.value.isData, SymbolOf(elf, id).value.name)
  }

  /** What makes the import phase apply entry id as `op`: the system has the export. */
  ghost predicate Imported(elf: Elf, p: Placement, sys: System, op: Op, id: Id) {
    && ValidId(elf, id) && IsImport(elf, elf[id.section], id.entry) && Patched(elf, id) < |p.dests|
    && op.mark == RELOC_TRAMP_IMPORT_DONE
    && RplOf(elf, elf[id.section], id.entry).Some?
    && ImportAddress(sys, Deferred(elf, p.dests, elf[id.section], id.entry)) == Some(op.link.symbolAddr)
  }

  lemma ImportStems(elf: Elf, p: Placement, id: Id, sys: System)
    requires ValidId(elf, id) && IsImport(elf, elf[id.section], id.entry) && Patched(elf, id) < |p.dests|
    requires RplOf(elf, elf[id.section], id.entry).Some?
    requires ImportAddress(sys, Deferred(elf, p.dests, elf[id.section], id.entry)).Some?
    ensures var r := Deferred(elf, p.dests, elf[id.section], id.entry);
            var op := Op(ImportLink(r, ImportAddress(sys, r).value), RELOC_TRAMP_IMPORT_DONE);
            Stems(elf, p.dests, op, id) && Imported(elf, p, sys, op, id)
  {
    hide RplOf, ImportAddress;
    DeferredTarget(elf, p.dests, elf[id.section], id.entry);
  }

  /** The operations of a successful start, in the order of AllIds. */
  ghost predicate OpsFor(elf: Elf, p: Placement, sys: System, ops: seq<Op>)
    requires |elf| < 0x1_0000_0000
  {
    && |ops| == |AllIds(elf)|
    && (forall x :: 0 <= x < |ops| ==> Stems(elf, p.dests, ops[x], AllIds(elf)[x]))
    && (forall x :: 0 <= x < |LinkIds(elf, 0)| ==> Linked(elf, p, ops[x], AllIds(elf)[x]))
    && (forall x :: |LinkIds(elf, 0)| <= x < |ops| ==> Imported(elf, p, sys, ops[x], AllIds(elf)[x]))
  }

  lemma LinksFollow(elf: Elf, p: Placement, acts: seq<Act>)
    requires |elf| == |p.dests| && |elf| < 0x1_0000_0000
    requires acts == ModuleActs(elf, p.dests, 0, PayloadStart(elf), p.base)
    requires forall x :: 0 <= x < |acts| ==> acts[x].Apply?
    ensures |acts| == |LinkIds(elf, 0)|
    ensures forall x :: 0 <= x < |acts| ==>
              Stems(elf, p.dests, FixedOps(acts)[x], LinkIds(elf, 0)[x])
              && Linked(elf, p, FixedOps(acts)[x], LinkIds(elf, 0)[x])
  {
    hide IsImport, EntryAct, LinkIds, ModuleActs, Stems, Linked, Room, And;
    ActsFollowIds(elf, p.dests, 0, PayloadStart(elf), p.base);
    forall x | 0 <= x < |acts|
      ensures Stems(elf, p.dests, FixedOps(acts)[x], LinkIds(elf, 0)[x])
              && Linked(elf, p, FixedOps(acts)[x], LinkIds(elf, 0)[x])
    {
      ActStems(elf, p, LinkIds(elf, 0)[x], acts[x]);
    }
  }

  lemma ImportsFollow(elf: Elf, p: Placement, relocData: seq<RelocationData>, sys: System)
    requires WellFormed(elf) && |elf| == |p.dests| && WellNamed(elf)
    requires ModuleImports(elf, p.dests, 0) == Some(relocData)
    requires forall x :: 0 <= x < |relocData| ==> ImportAddress(sys, relocData[x]).Some?
    ensures |relocData| == |ImportIds(elf, 0)|
    ensures forall x :: 0 <= x < |relocData| ==>
              Stems(elf, p.dests, ImportOps(relocData, sys)[x], ImportIds(elf, 0)[x])
              && Imported(elf, p, sys, ImportOps(relocData, sys)[x], ImportIds(elf, 0)[x])
  {
    hide IsImport, ImportIds, ModuleImports, Stems, Imported, Deferred, RplOf, ImportAddress, WellFormed, KeptIds,
         WellNamedFrom;
    ImportsFollowIds(elf, p.dests, 0);
    AllKeptExactly(elf, 0);
    forall x | 0 <= x < |relocData|
      ensures Stems(elf, p.dests, ImportOps(relocData, sys)[x], ImportIds(elf, 0)[x])
              && Imported(elf, p, sys, ImportOps(relocData, sys)[x], ImportIds(elf, 0)[x])
    {
      ImportStems(elf, p, ImportIds(elf, 0)[x], sys);
    }
  }

  /** A successful start is one successful run of all the module's relocations over the loaded image,
      followed by the clearing of .bss and .sbss. */
  lemma StartIsRun(m: Mem, codeEnd: word, elf: Elf, entry: word, sys: System) returns (ops: seq<Op>)
    requires WellFormed(elf) && ModuleTable(codeEnd).InMemory() && WellNamed(elf)
    requires Start(m, codeEnd, elf, entry, sys).0.EntryPoint?
    ensures var target, t := PayloadStart(elf), ModuleTable(codeEnd);
            && W(Room(elf)) <= Sub(PAYLOAD_END, ModuleDataStart(codeEnd))
            && Succeeds(elf, target, PAYLOAD_END, m)
            && Start(m, codeEnd, elf, entry, sys).0.address == Sub(Plus(target, entry), 0x02000000)
            && var p, image := Final(elf, target, PAYLOAD_END, m), Image(elf, target, PAYLOAD_END, m);
            && OpsFor(elf, p, sys, ops)
            && RunLinks(image, t, ops).ok
            && Start(m, codeEnd, elf, entry, sys).1 == Clear(Clear(RunLinks(image, t, ops).mem, p.bss), p.sbss)
  {
    hide Place, RunActs, ModuleActs, ModuleImports, RunImports, RunLinks, Room, And, Clear, IsImport, LinkIds,
         ImportIds, Stems, WellNamed, ImportAddress, WellFormed, Linked, Imported;
    var target, t := PayloadStart(elf), ModuleTable(codeEnd);
    FewSections(elf);
    var p, image := Final(elf, target, PAYLOAD_END, m), Image(elf, target, PAYLOAD_END, m);
    var acts := ModuleActs(elf, p.dests, 0, target, p.base);
    var relocData := ModuleImports(elf, p.dests, 0).value;
    ActsAreLinks(image, t, acts);
    var m2 := RunActs(image, t, acts).1;
    ImportsAreLinks(m2, t, relocData, sys);
    ops := FixedOps(acts) + ImportOps(relocData, sys);
    RunLinksAppend(image, t, FixedOps(acts), ImportOps(relocData, sys));
    LinksFollow(elf, p, acts);
    ImportsFollow(elf, p, relocData, sys);
  }

  // ----- the fields of a clean payload are separate -----

  /** The payload fits: the room its sections need does not wrap around, and the window is above the table. */
  ghost predicate Fits(codeEnd: word, elf: Elf) {
    && codeEnd < 0xF000_0000
    && ModuleTable(codeEnd).InMemory()
    && ModuleDataStart(codeEnd) <= PAYLOAD_END
    && Room(elf) < 0x1_0000_0000
  }

  /** Clean parts, as seen by the layout theorems. */
  lemma CleanLayout(elf: Elf)
    requires Clean(elf)
    ensures WellFormed(elf) && TextFirst(elf) && |elf| < 0x1_0000_0000
    ensures forall i :: 0 <= i < |elf| && Occupies(elf[i]) && elf[i].IsText() ==> elf[i].address == 0x02000000
  {
  }

  lemma SectionsApart(elf: Elf, m: Mem, j: nat, k: nat)
    requires Clean(elf) && Room(elf) <= PAYLOAD_END
    requires Succeeds(elf, TargetAddress(PAYLOAD_END, Room(elf)), PAYLOAD_END, m)
    requires j < |elf| && k < |elf| && j != k && Occupies(elf[j]) && Occupies(elf[k])
    ensures var target := TargetAddress(PAYLOAD_END, Room(elf));
            var a, b := LoadAddress(elf, target, j), LoadAddress(elf, target, k);
            a + elf[j].size <= b || b + elf[k].size <= a
  {
    hide LoadAddress, Room, And, Succeeds, Occupies, WellFormed, RelocationsOnly, WellNamed, IsRelocation,
         TargetAddress;
    CleanLayout(elf);
    DisjointSections(elf, PAYLOAD_END, m, if j < k then j else k, if j < k then k else j);
  }

  /** Where a relocation's field is, as a true integer inside its section's part of the window. */
  lemma FieldPlace(elf: Elf, m: Mem, op: Op, id: Id)
    requires WellFormed(elf) && Room(elf) <= PAYLOAD_END && ValidId(elf, id) && Within(elf, id)
    requires var target := TargetAddress(PAYLOAD_END, Room(elf));
             Succeeds(elf, target, PAYLOAD_END, m) && Stems(elf, Final(elf, target, PAYLOAD_END, m).dests, op, id)
    requires op.link.Width() > 0
    ensures var target, k := TargetAddress(PAYLOAD_END, Room(elf)), Patched(elf, id);
            && k < |elf| && Occupies(elf[k]) && InWindow(elf, target, PAYLOAD_END, k)
            && elf[k].address <= EntryOf(elf, id).offset
            && op.link.Target() == LoadAddress(elf, target, k) + (EntryOf(elf, id).offset - elf[k].address)
            && op.link.Target() + op.link.Width() <= LoadAddress(elf, target, k) + elf[k].size
  {
    hide LoadAddress, Room, And, Succeeds, BaseOf, Final, TargetAddress, Section.Placed, WellFormed;
    var target, k := TargetAddress(PAYLOAD_END, Room(elf)), Patched(elf, id);
    LayoutFormula(elf, target, PAYLOAD_END, m);
    PlaceIsLoadedAt(elf, target, k, EntryOf(elf, id).offset);
    WindowContains(elf, PAYLOAD_END, m, k);
  }

  lemma CleanWithin(elf: Elf, id: Id)
    requires Clean(elf) && IsRelocation(elf, id)
    ensures WellFormed(elf) && ValidId(elf, id) && Within(elf, id) && elf[Patched(elf, id)].Placed()
  {
  }

  /** Fields of different entries are apart. */
  lemma EntriesApart(elf: Elf, m: Mem, op: Op, id: Id, op': Op, id': Id)
    requires Clean(elf) && Room(elf) <= PAYLOAD_END && IsRelocation(elf, id) && IsRelocation(elf, id') && id != id'
    requires var target := TargetAddress(PAYLOAD_END, Room(elf));
             && Succeeds(elf, target, PAYLOAD_END, m)
             && Stems(elf, Final(elf, target, PAYLOAD_END, m).dests, op, id)
             && Stems(elf, Final(elf, target, PAYLOAD_END, m).dests, op', id')
    ensures Apart(op.link, op'.link)
  {
    hide LoadAddress, Room, And, Succeeds, Final, WellNamed, RelocationsOnly, RangesApart, TextFirst, TargetAddress,
         Occupies, WellFormed, IsRelocation;
    if op.link.Width() > 0 && op'.link.Width() > 0 {
      CleanWithin(elf, id);
      CleanWithin(elf, id');
      FieldPlace(elf, m, op, id);
      FieldPlace(elf, m, op', id');
      var j, k := Patched(elf, id), Patched(elf, id');
      if j == k {
        assert FieldsApart(elf, id, id');
      } else {
        SectionsApart(elf, m, j, k);
      }
    }
  }

  lemma FieldOffTable(codeEnd: word, elf: Elf, m: Mem, op: Op, id: Id)
    requires Clean(elf) && Fits(codeEnd, elf) && Room(elf) <= PAYLOAD_END - ModuleDataStart(codeEnd)
             && IsRelocation(elf, id)
    requires var target := TargetAddress(PAYLOAD_END, Room(elf));
             Succeeds(elf, target, PAYLOAD_END, m) && Stems(elf, Final(elf, target, PAYLOAD_END, m).dests, op, id)
    ensures OffTable(ModuleTable(codeEnd), op.link)
  {
    hide LoadAddress, Room, And, Succeeds, Final, Clean, TargetAddress, Occupies, IsRelocation, ModuleDataStart;
    if op.link.Width() > 0 {
      CleanWithin(elf, id);
      FieldPlace(elf, m, op, id);
      WindowAboveTable(codeEnd, Room(elf));
    }
  }

  /** No entry is handled twice. */
  lemma IdsDistinct(elf: Elf)
    requires Clean(elf)
    ensures |elf| < 0x1_0000_0000
    ensures forall x :: 0 <= x < |AllIds(elf)| ==> IsRelocation(elf, AllIds(elf)[x])
    ensures forall x, y :: 0 <= x < y < |AllIds(elf)| ==> AllIds(elf)[x] != AllIds(elf)[y]
  {
    hide LinkIds, ImportIds, IsRelocation, WellNamed, RangesApart, TextFirst;
    var ids := AllIds(elf);
    forall id: Id ensures multiset(ids)[id] == One(IsRelocation(elf, id)) {
      ListedExactlyOnce(elf, id);
    }
    forall x | 0 <= x < |ids| ensures IsRelocation(elf, ids[x]) {
      assert multiset(ids)[ids[x]] > 0;
    }
    forall x, y | 0 <= x < y < |ids| ensures ids[x] != ids[y] {
      if ids[x] == ids[y] { TwiceCounts(ids, x, y); }
    }
  }

  lemma TwiceCounts(ids: seq<Id>, x: nat, y: nat)
    requires x < y < |ids| && ids[x] == ids[y]
    ensures multiset(ids)[ids[x]] >= 2
  {
    assert ids == ids[..y] + ids[y..];
    assert ids[..y][x] in multiset(ids[..y]);
    assert ids[y..][0] in multiset(ids[y..]);
  }

  lemma RunIsSeparate(codeEnd: word, elf: Elf, m: Mem, sys: System, ops: seq<Op>)
    requires Clean(elf) && Fits(codeEnd, elf) && Room(elf) <= PAYLOAD_END - ModuleDataStart(codeEnd)
    requires |elf| < 0x1_0000_0000
    requires var target := TargetAddress(PAYLOAD_END, Room(elf));
             Succeeds(elf, target, PAYLOAD_END, m) && OpsFor(elf, Final(elf, target, PAYLOAD_END, m), sys, ops)
    ensures Separate(ModuleTable(codeEnd), ops)
  {
    hide Room, And, Succeeds, Final, Clean, TargetAddress, IsRelocation, ModuleDataStart, OffTable, Apart, Stems,
         AllIds, LinkIds, Linked, Imported;
    IdsDistinct(elf);
    forall x | 0 <= x < |ops| ensures OffTable(ModuleTable(codeEnd), ops[x].link) {
      FieldOffTable(codeEnd, elf, m, ops[x], AllIds(elf)[x]);
    }
    forall x, y | 0 <= x < y < |ops| ensures Apart(ops[x].link, ops[y].link) {
      EntriesApart(elf, m, ops[x], AllIds(elf)[x], ops[y], AllIds(elf)[y]);
    }
  }
}

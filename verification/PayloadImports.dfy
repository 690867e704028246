/** The imports of a started payload: what a call to the system arrives at. */
module PayloadImports {
  import opened Bits
  import opened Memory
  import opened PowerPC
  import opened ElfUtils
  import opened Relocation
  import opened LinkRun
  import opened WholeRun
  import opened ElfFile
  import opened Layout
  import opened LayoutTheorems
  import opened ModuleDataFactory
  import opened Imports
  import opened Loader
  import opened PayloadRun
  import opened Containment
  import opened Payload

  // ----- a link phase followed by an import phase -----

  lemma {:induction false} FirstPartSucceeds(m: Mem, t: Table, xs: seq<Op>, ys: seq<Op>)
    requires t.InMemory() && RunLinks(m, t, xs + ys).ok
    ensures RunLinks(m, t, xs).ok
    decreases |xs|
  {
    hide LinkOne;
    if xs != [] {
      assert (xs + ys)[0] == xs[0] && (xs + ys)[1..] == xs[1..] + ys;
      FirstPartSucceeds(LinkOne(m, t, xs[0].link, xs[0].mark).mem, t, xs[1..], ys);
    }
  }

  lemma SeparateParts(t: Table, xs: seq<Op>, ys: seq<Op>)
    requires t.InMemory() && Separate(t, xs + ys)
    ensures AllOffTable(t, xs) && Separate(t, ys)
    ensures forall i, j :: 0 <= i < |xs| && 0 <= j < |ys| ==> Apart(xs[i].link, ys[j].link)
  {
    hide OffTable, Apart;
    var n, ops := |xs|, xs + ys;
    forall i | 0 <= i < n ensures OffTable(t, xs[i].link) { assert ops[i] == xs[i]; }
    forall j | 0 <= j < |ys| ensures OffTable(t, ys[j].link) { assert ops[n + j] == ys[j]; }
    forall i, j | 0 <= i < j < |ys| ensures Apart(ys[i].link, ys[j].link) {
      assert ops[n + i] == ys[i] && ops[n + j] == ys[j];
    }
    forall i, j | 0 <= i < n && 0 <= j < |ys| ensures Apart(xs[i].link, ys[j].link) {
      assert ops[i] == xs[i] && ops[n + j] == ys[j];
    }
  }

  /** After both phases every far import goes through one slot, the first that the link phase left
      available, to the value of the last far import. */
  lemma FarImportsShareStub(m: Mem, t: Table, links: seq<Op>, imports: seq<Op>, i: nat) returns (k: nat)
    requires t.InMemory() && Separate(t, links + imports) && AllImports(imports)
    requires RunLinks(m, t, links + imports).ok && i < |imports| && imports[i].link.Far()
    ensures Takers(links) < |AvailableSlots(m, t, 0)| && k == AvailableSlots(m, t, 0)[Takers(links)]
    ensures LastFar(imports) < |imports|
    ensures Through(RunLinks(m, t, links + imports).mem, t, imports[i].link, GetWord(m, imports[i].link.Target()), k,
                    imports[LastFar(imports)].link.Value())
  {
    hide RunLinks, AvailableSlots, Takers, StubInReach, StubDistance, GetBytes, StubBytes, WordBytes, WordOf, Entry,
         WithDisplacement24, LastFar, OffTable, Apart, Separate;
    FirstPartSucceeds(m, t, links, imports);
    RunLinksAppend(m, t, links, imports);
    SeparateParts(t, links, imports);
    var linked, l := RunLinks(m, t, links).mem, imports[i].link;
    RunAllocates(m, t, links);
    ImportField(linked, t, imports, i);
    k := AvailableSlots(linked, t, 0)[0];
    SeparateOffTable(t, imports);
    ImportsShareOneSlot(linked, t, imports, k);
    WordUntouched(m, t, links, imports, i);
  }

  lemma WordUntouched(m: Mem, t: Table, links: seq<Op>, imports: seq<Op>, i: nat)
    requires t.InMemory() && AllOffTable(t, links) && Separate(t, imports) && i < |imports|
             && imports[i].link.Width() == 4
    requires forall i, j :: 0 <= i < |links| && 0 <= j < |imports| ==> Apart(links[i].link, imports[j].link)
    ensures GetWord(RunLinks(m, t, links).mem, imports[i].link.Target()) == GetWord(m, imports[i].link.Target())
  {
    hide RunLinks, GetBytes, Separate;
    var l := imports[i].link;
    assert OffTable(t, l) by { SeparateOffTable(t, imports); }
    forall x | 0 <= x < |links| ensures Disjoint(links[x].link.Target(), links[x].link.Width(), l.Target(), 4) {
      assert Apart(links[x].link, imports[i].link);
    }
    RunKeepsRange(m, t, links, l.Target(), 4);
  }

  // ----- the imports as the file describes them -----

  /** Import id: from its place in the loaded payload to the system's export. */
  function ImportOp(elf: Elf, sys: System, id: Id): Op
    requires ValidId(elf, id) && Patched(elf, id) < |elf|
  {
    var e := EntryOf(elf, id);
    Op(Link(e.kind, LoadedAt(elf, PayloadStart(elf), Patched(elf, id), e.offset), e.addend, 0, Export(elf, sys, id)),
       RELOC_TRAMP_IMPORT_DONE)
  }

  /** All imports, in the order of the import phase. */
  ghost function ImportPlan(elf: Elf, sys: System): (r: seq<Op>)
    requires RelocationsOnly(elf)
    ensures |r| == |ImportIds(elf, 0)|
  {
    seq(|ImportIds(elf, 0)|, (y: nat) requires y < |ImportIds(elf, 0)| => ImportOp(elf, sys, ImportIds(elf, 0)[y]))
  }

  /** The same branch, from the same place to the same value. */
  predicate SameBranch(l: Link, l': Link) {
    l.kind == l'.kind && l.Target() == l'.Target() && l.Value() == l'.Value()
  }

  lemma SameLastFar(ops: seq<Op>, ops': seq<Op>)
    requires |ops| == |ops'| && forall i :: 0 <= i < |ops| ==> SameBranch(ops[i].link, ops'[i].link)
    ensures LastFar(ops) == LastFar(ops')
  {
    hide SameBranch;
    forall i | 0 <= i < |ops| ensures ops[i].link.Far() == ops'[i].link.Far() {
      SameFar(ops[i].link, ops'[i].link);
    }
  }

  lemma SameFar(l: Link, l': Link)
    requires SameBranch(l, l')
    ensures l.Far() == l'.Far()
  {
  }

  lemma SameWork(m: Mem, l: Link, l': Link, was: word, s: Cpu)
    requires SameBranch(l, l')
    ensures BranchWorks(m, l, was, s) == BranchWorks(m, l', was, s)
  {
    hide Run, LinkRegister;
    SameFar(l, l');
  }

  lemma ImportIsPlanned(elf: Elf, p: Placement, sys: System, op: Op, id: Id)
    requires Stems(elf, p.dests, op, id) && Imported(elf, p, sys, op, id) && Patched(elf, id) < |elf|
    requires op.link.Target() == LoadedAt(elf, PayloadStart(elf), Patched(elf, id), EntryOf(elf, id).offset)
    ensures SameBranch(op.link, ImportOp(elf, sys, id).link)
  {
    hide LoadedAt, IsImport, GetSymbol, CreateImportRPL, PayloadStart;
  }

  /** The operations of the import phase are those that the file describes. */
  lemma PhaseIsPlan(elf: Elf, m: Mem, sys: System, ops: seq<Op>)
    requires Clean(elf) && |elf| < 0x1_0000_0000 && Succeeds(elf, PayloadStart(elf), PAYLOAD_END, m)
    requires OpsFor(elf, Final(elf, PayloadStart(elf), PAYLOAD_END, m), sys, ops)
    ensures RelocationsOnly(elf)
    ensures var imports, plan := ops[|LinkIds(elf, 0)|..], ImportPlan(elf, sys);
            && |imports| == |plan| && AllImports(imports)
            && forall y :: 0 <= y < |plan| ==> SameBranch(imports[y].link, plan[y].link)
  {
    hide LinkIds, ImportIds, IsImport, Stems, Imported, Linked, Succeeds, Final, PayloadStart, LoadedAt, ImportOp,
         Within, WellFormed, WellNamed, TextFirst, RangesApart, SameBranch, IsRelocation, FieldsApart, BaseOf;
    var target := PayloadStart(elf);
    var p, n, ids := Final(elf, target, PAYLOAD_END, m), |LinkIds(elf, 0)|, ImportIds(elf, 0);
    var imports := ops[n..];
    LayoutFormula(elf, target, PAYLOAD_END, m);
    forall y | 0 <= y < |ids|
      ensures imports[y].mark == RELOC_TRAMP_IMPORT_DONE && SameBranch(imports[y].link, ImportPlan(elf, sys)[y].link)
    {
      var id := ids[y];
      assert AllIds(elf)[n + y] == id && ops[n + y] == imports[y];
      ImportIsRelocation(elf, y);
      ImportMatches(elf, m, p, sys, imports[y], id);
    }
  }

  lemma ImportMatches(elf: Elf, m: Mem, p: Placement, sys: System, op: Op, id: Id)
    requires Clean(elf) && Succeeds(elf, PayloadStart(elf), PAYLOAD_END, m)
    requires p == Final(elf, PayloadStart(elf), PAYLOAD_END, m) && IsRelocation(elf, id)
    requires Stems(elf, p.dests, op, id) && Imported(elf, p, sys, op, id)
    ensures Patched(elf, id) < |elf| && op.mark == RELOC_TRAMP_IMPORT_DONE
    ensures SameBranch(op.link, ImportOp(elf, sys, id).link)
  {
    hide IsImport, Succeeds, Final, PayloadStart, LoadedAt, ImportOp, SameBranch, Clean, BaseOf, Section.Placed,
         IsRelocation;
    CleanParts(elf);
    LayoutFormula(elf, PayloadStart(elf), PAYLOAD_END, m);
    CleanWithin(elf, id);
    PlaceIsLoadedAt(elf, PayloadStart(elf), Patched(elf, id), EntryOf(elf, id).offset);
    ImportIsPlanned(elf, p, sys, op, id);
  }

  lemma ImportIsRelocation(elf: Elf, y: nat)
    requires y < |ImportIds(elf, 0)|
    ensures var id := ImportIds(elf, 0)[y]; IsRelocation(elf, id) && IsImport(elf, elf[id.section], id.entry)
  {
    hide IsImport;
  }

  // ----- calls to the system -----

  /** Clearing .bss and .sbss leaves alone a branch in another section, and the table. */
  lemma ClearKeepsThrough(
    codeEnd: word, elf: Elf, m: Mem, m': Mem, op: Op, id: Id, was: word, k: nat, v: word)
    requires Clean(elf) && Fits(codeEnd, elf) && Room(elf) <= PAYLOAD_END - ModuleDataStart(codeEnd)
    requires |elf| < 0x1_0000_0000 && IsRelocation(elf, id)
    requires var target := TargetAddress(PAYLOAD_END, Room(elf));
             Succeeds(elf, target, PAYLOAD_END, m) && Stems(elf, Final(elf, target, PAYLOAD_END, m).dests, op, id)
    requires Patched(elf, id) < |elf| && Kept(elf, Patched(elf, id)) && op.link.Width() == 4
    requires Through(m', ModuleTable(codeEnd), op.link, was, k, v)
    ensures var p := Final(elf, TargetAddress(PAYLOAD_END, Room(elf)), PAYLOAD_END, m);
            Through(Clear(Clear(m', p.bss), p.sbss), ModuleTable(codeEnd), op.link, was, k, v)
  {
    hide Room, And, Succeeds, Clean, TargetAddress, ModuleDataStart, LoadAddress, Final, IsRelocation, Occupies,
         Clear, StubInReach, InTableOrKept, Recorded, GetBytes, StubBytes, WordBytes, Stems, WithDisplacement24,
         StubDistance;
    CleanLayout(elf);
    var target := TargetAddress(PAYLOAD_END, Room(elf));
    var p, a, slot := Final(elf, target, PAYLOAD_END, m), op.link.Target(), ModuleTable(codeEnd).Slot(k);
    BssRecorded(elf, target, PAYLOAD_END, m);
    FieldKept(codeEnd, elf, m, op, id, ".bss");
    FieldKept(codeEnd, elf, m, op, id, ".sbss");
    SlotKept(codeEnd, elf, k, ".bss");
    SlotKept(codeEnd, elf, k, ".sbss");
    ClearApart(codeEnd, elf, m, m', p.bss, ".bss", a, 4);
    ClearApart(codeEnd, elf, m, Clear(m', p.bss), p.sbss, ".sbss", a, 4);
    ClearApart(codeEnd, elf, m, m', p.bss, ".bss", slot, 20);
    ClearApart(codeEnd, elf, m, Clear(m', p.bss), p.sbss, ".sbss", slot, 20);
  }

  /** The run's own view of import y. */
  ghost predicate GoesToLast(elf: Elf, sys: System, y: nat, m: Mem, t: Table, op: Op, was: word, k: nat)
    requires RelocationsOnly(elf) && y < |ImportIds(elf, 0)| && t.InMemory()
  {
    var plan := ImportPlan(elf, sys);
    && SameBranch(op.link, plan[y].link)
    && LastFar(plan) < |plan|
    && Through(m, t, op.link, was, k, plan[LastFar(plan)].link.Value())
  }

  /** The shared stub, told from a plan with the same branches. */
  lemma PlannedStub(m: Mem, t: Table, links: seq<Op>, imports: seq<Op>, plan: seq<Op>, y: nat) returns (k: nat)
    requires t.InMemory() && Separate(t, links + imports) && AllImports(imports)
    requires RunLinks(m, t, links + imports).ok && y < |imports| == |plan| && plan[y].link.Far()
    requires forall i :: 0 <= i < |plan| ==> SameBranch(imports[i].link, plan[i].link)
    ensures LastFar(plan) < |plan|
    ensures Through(RunLinks(m, t, links + imports).mem, t, imports[y].link, GetWord(m, imports[y].link.Target()), k,
                    plan[LastFar(plan)].link.Value())
  {
    hide RunLinks, Separate, LastFar, Through, AvailableSlots, Takers, GetWord, Link.Far;
    SameFar(imports[y].link, plan[y].link);
    SameLastFar(imports, plan);
    k := FarImportsShareStub(m, t, links, imports, y);
    assert SameBranch(imports[LastFar(plan)].link, plan[LastFar(plan)].link);
  }

  lemma FarImportRuns(m: Mem, codeEnd: word, elf: Elf, sys: System, ops: seq<Op>, y: nat) returns (op: Op, k: nat)
    requires Clean(elf) && Fits(codeEnd, elf) && |elf| < 0x1_0000_0000 && RelocationsOnly(elf)
    requires Room(elf) <= PAYLOAD_END - ModuleDataStart(codeEnd) && Succeeds(elf, PayloadStart(elf), PAYLOAD_END, m)
    requires OpsFor(elf, Final(elf, PayloadStart(elf), PAYLOAD_END, m), sys, ops)
    requires RunLinks(LoadedImage(m, elf), ModuleTable(codeEnd), ops).ok
    requires y < |ImportIds(elf, 0)| && ImportPlan(elf, sys)[y].link.Far()
    ensures var image, t := LoadedImage(m, elf), ModuleTable(codeEnd);
            GoesToLast(elf, sys, y, RunLinks(image, t, ops).mem, t, op, GetWord(image, op.link.Target()), k)
    ensures Stems(elf, Final(elf, PayloadStart(elf), PAYLOAD_END, m).dests, op, ImportIds(elf, 0)[y])
  {
    hide Room, And, Succeeds, TargetAddress, ModuleDataStart, Final, GetWord, Image, RunLinks, LinkIds, ImportIds,
         Clean, Through, LastFar, Separate, ImportPlan, RelocationsOnly, Stems, Linked, Imported, Link.Far,
         Link.Value, Link.Target, SameBranch, IsRelocation, IsImport, WellFormed, WellNamed;
    CleanParts(elf);
    RunIsSeparate(codeEnd, elf, m, sys, ops);
    PhaseIsPlan(elf, m, sys, ops);
    var n, plan := |LinkIds(elf, 0)|, ImportPlan(elf, sys);
    var links, imports := ops[..n], ops[n..];
    assert links + imports == ops;
    op := imports[y];
    assert op == ops[n + y] && AllIds(elf)[n + y] == ImportIds(elf, 0)[y];
    k := PlannedStub(LoadedImage(m, elf), ModuleTable(codeEnd), links, imports, plan, y);
  }

  /** In the final memory a far import goes through a slot to the last far import's value. */
  lemma FarImportLasts(m: Mem, codeEnd: word, elf: Elf, entry: word, sys: System, y: nat) returns (op: Op, k: nat)
    requires Started(m, codeEnd, elf, entry, sys) && RelocationsOnly(elf)
    requires y < |ImportIds(elf, 0)| && ImportPlan(elf, sys)[y].link.Far()
    requires Patched(elf, ImportIds(elf, 0)[y]) < |elf| && Kept(elf, Patched(elf, ImportIds(elf, 0)[y]))
    ensures GoesToLast(elf, sys, y, Start(m, codeEnd, elf, entry, sys).1, ModuleTable(codeEnd), op,
                       GetWord(LoadedImage(m, elf), op.link.Target()), k)
    ensures op.link.addend == EntryOf(elf, ImportIds(elf, 0)[y]).addend
  {
    hide Room, And, Succeeds, TargetAddress, ModuleDataStart, Final, IsRelocation, Clear, GetWord, Start, Image,
         RunLinks, ImportIds, Clean, WellNamed, Through, LastFar, ImportPlan, RelocationsOnly, OpsFor, IsImport,
         Link.Value, Link.Target, Linked, Imported;
    CleanParts(elf);
    var ops := StartIsRun(m, codeEnd, elf, entry, sys);
    var target, t, id := PayloadStart(elf), ModuleTable(codeEnd), ImportIds(elf, 0)[y];
    var image, plan := LoadedImage(m, elf), ImportPlan(elf, sys);
    op, k := FarImportRuns(m, codeEnd, elf, sys, ops, y);
    ImportIsRelocation(elf, y);
    ClearKeepsThrough(codeEnd, elf, m, RunLinks(image, t, ops).mem, op, id, GetWord(image, op.link.Target()), k,
                      plan[LastFar(plan)].link.Value());
  }

  /** Import y is a call that can be executed at s: a relative branch, in a section that is not cleared,
      if it is far to the symbol itself. */
  ghost predicate ImportCall(m: Mem, elf: Elf, sys: System, y: nat, s: Cpu)
    requires WellFormed(elf) && y < |ImportIds(elf, 0)|
  {
    var id := ImportIds(elf, 0)[y];
    && Patched(elf, id) < |elf| && Kept(elf, Patched(elf, id))
    && EntryOf(elf, id).kind == R_PPC_REL24 && (ImportOp(elf, sys, id).link.Far() ==> EntryOf(elf, id).addend == 0)
    && s.pc == LoadedAt(elf, PayloadStart(elf), Patched(elf, id), EntryOf(elf, id).offset) && s.pc % 4 == 0
    && var was := GetWord(LoadedImage(m, elf), s.pc); Opcode(was) == 18 && !Absolute(was)
  }

  lemma PlannedPlace(elf: Elf, sys: System, y: nat)
    requires RelocationsOnly(elf) && y < |ImportIds(elf, 0)| && Patched(elf, ImportIds(elf, 0)[y]) < |elf|
    ensures var l, id := ImportPlan(elf, sys)[y].link, ImportIds(elf, 0)[y];
            && l == ImportOp(elf, sys, id).link
            && l.kind == EntryOf(elf, id).kind && l.addend == EntryOf(elf, id).addend
            && l.Target() == LoadedAt(elf, PayloadStart(elf), Patched(elf, id), EntryOf(elf, id).offset)
  {
    hide LoadedAt, PayloadStart, ImportIds, Export;
  }

  lemma FarCallWorks(m: Mem, codeEnd: word, elf: Elf, entry: word, sys: System, y: nat, s: Cpu)
    requires Started(m, codeEnd, elf, entry, sys) && RelocationsOnly(elf)
    requires y < |ImportIds(elf, 0)| && ImportPlan(elf, sys)[y].link.Far() && ImportCall(m, elf, sys, y, s)
    ensures var plan := ImportPlan(elf, sys);
            && LastFar(plan) < |plan|
            && (BranchWorks(Start(m, codeEnd, elf, entry, sys).1, plan[y].link, GetWord(LoadedImage(m, elf), s.pc), s)
                <==> plan[y].link.Value() % 4 == 0 && plan[LastFar(plan)].link.Value() == plan[y].link.Value())
  {
    hide Start, LoadedImage, ImportIds, Through, ImportPlan, LastFar, LoadedAt, Started, RelocationsOnly, BranchWorks,
         Opcode, Absolute, GetWord, PayloadStart, Link.Far;
    StartedParts(m, codeEnd, elf, entry, sys);
    var plan, final := ImportPlan(elf, sys), Start(m, codeEnd, elf, entry, sys).1;
    PlannedPlace(elf, sys, y);
    var op, k := FarImportLasts(m, codeEnd, elf, entry, sys, y);
    SameFar(op.link, plan[y].link);
    var was := GetWord(LoadedImage(m, elf), s.pc);
    ThroughWorks(final, ModuleTable(codeEnd), op.link, was, k, plan[LastFar(plan)].link.Value(), s);
    SameWork(final, op.link, plan[y].link, was, s);
  }

  lemma NearCallWorks(m: Mem, codeEnd: word, elf: Elf, entry: word, sys: System, y: nat, s: Cpu)
    requires Started(m, codeEnd, elf, entry, sys) && RelocationsOnly(elf)
    requires y < |ImportIds(elf, 0)| && !ImportPlan(elf, sys)[y].link.Far() && ImportCall(m, elf, sys, y, s)
    ensures BranchWorks(Start(m, codeEnd, elf, entry, sys).1, ImportPlan(elf, sys)[y].link,
                        GetWord(LoadedImage(m, elf), s.pc), s)
  {
    hide Start, LoadedImage, ImportIds, LinkIds, LoadedAt, Started, RelocationsOnly, BranchWorks, Clean, InPlace,
         Fits, Opcode, Absolute, GetBytes, PayloadStart, Link.Far, Final, Linked, Imported, IsImport, BaseOf, Run,
         WordOf;
    StartedParts(m, codeEnd, elf, entry, sys);
    CleanParts(elf);
    var id, final := ImportIds(elf, 0)[y], Start(m, codeEnd, elf, entry, sys).1;
    var l := ImportPlan(elf, sys)[y].link;
    var x := |LinkIds(elf, 0)| + y;
    assert AllIds(elf)[x] == id;
    var op, slot := EntryInPlace(m, codeEnd, elf, entry, sys, x);
    ImportIsPlanned(elf, Final(elf, PayloadStart(elf), PAYLOAD_END, m), sys, op, id);
    SameFar(op.link, l);
    InPlaceWorks(final, ModuleTable(codeEnd), op, GetBytes(LoadedImage(m, elf), s.pc, 4), slot, s);
    SameWork(final, op.link, l, GetWord(LoadedImage(m, elf), s.pc), s);
  }

  /** In the final memory of a clean payload a call to the system reaches the system's export, exactly if
      it is near, or the export is word-aligned and the same as that of the last far import. */
  lemma PayloadImportWorks(m: Mem, codeEnd: word, elf: Elf, entry: word, sys: System, y: nat, s: Cpu)
    requires Started(m, codeEnd, elf, entry, sys)
    requires y < |ImportIds(elf, 0)| && ImportCall(m, elf, sys, y, s)
    ensures var plan := ImportPlan(elf, sys);
            && (plan[y].link.Far() ==> LastFar(plan) < |plan|)
            && (BranchWorks(Start(m, codeEnd, elf, entry, sys).1, plan[y].link, GetWord(LoadedImage(m, elf), s.pc), s)
                <==> (plan[y].link.Far() ==>
                        plan[y].link.Value() % 4 == 0 && plan[LastFar(plan)].link.Value() == plan[y].link.Value()))
  {
    hide Start, LoadedImage, ImportIds, ImportPlan, LastFar, Started, RelocationsOnly, BranchWorks, GetWord,
         ImportCall, Link.Far, Link.Value;
    StartedRelocations(m, codeEnd, elf, entry, sys);
    if ImportPlan(elf, sys)[y].link.Far() {
      FarCallWorks(m, codeEnd, elf, entry, sys, y, s);
    } else {
      NearCallWorks(m, codeEnd, elf, entry, sys, y, s);
    }
  }

  lemma StartedRelocations(m: Mem, codeEnd: word, elf: Elf, entry: word, sys: System)
    requires Started(m, codeEnd, elf, entry, sys)
    ensures RelocationsOnly(elf)
  {
  }
}

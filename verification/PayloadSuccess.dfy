/** When a payload starts: success of do_start told from the file, the system and the stub table before the
    start. */
module PayloadSuccess {
  import opened Bits
  import opened Memory
  import opened ElfUtils
  import opened Relocation
  import opened LinkRun
  import opened WholeRun
  import opened ElfFile
  import opened Layout
  import opened LayoutTheorems
  import opened ModuleDataFactory
  import opened Imports
  import opened Loader
  import opened PayloadRun
  import opened Containment
  import opened Payload
  import opened PayloadImports

  // ----- the layout pass -----

  /** Section k lies in one of the two regions and passes both guards. */
  predicate Passes(elf: Elf, target: word, limit: word, k: nat)
    requires k < |elf|
  {
    elf[k].Placed() ==>
      && (elf[k].IsText() || elf[k].IsData())
      && target <= LoadAddress(elf, target, k) && Plus(LoadAddress(elf, target, k), elf[k].size) <= limit
  }

  lemma {:induction false} PlaceSucceeds(elf: Elf, target: word, limit: word, i: nat, p: Placement, m: Mem)
    requires WellFormed(elf) && i <= |elf| == |p.dests| && p.base == BaseOf(elf, target, i)
    ensures Place(elf, i, target, limit, p, m).0 == Success <==> forall k :: i <= k < |elf| ==>
              Passes(elf, target, limit, k)
    decreases |elf| - i
  {
    hide BaseOf, PutBytes, Section.Contents, Section.Placed, Section.IsText, Section.IsData;
    if i < |elf| {
      var r := PlaceOne(elf[i], i, target, limit, p, m);
      assert r.0 == Success <==> Passes(elf, target, limit, i);
      NextBase(elf, target, i);
      if r.0 == Success { PlaceSucceeds(elf, target, limit, i + 1, r.1, r.2); }
    }
  }

  /** The layout pass succeeds exactly when every placed section passes, whatever memory holds. */
  lemma LayoutSucceedsExactly(elf: Elf, target: word, limit: word, m: Mem)
    requires WellFormed(elf)
    ensures Succeeds(elf, target, limit, m) <==> forall k :: 0 <= k < |elf| ==> Passes(elf, target, limit, k)
  {
    hide Place, Passes;
    EmptyBase(elf, target);
    PlaceSucceeds(elf, target, limit, 0, InitialPlacement(elf, target), m);
  }

  /** Section k is the first that does not pass. */
  predicate FirstBad(elf: Elf, target: word, limit: word, k: nat) {
    k < |elf| && !Passes(elf, target, limit, k) && forall j :: 0 <= j < k ==> Passes(elf, target, limit, j)
  }

  lemma {:induction false} PlaceStops(elf: Elf, target: word, limit: word, i: nat, p: Placement, m: Mem, k: nat)
    requires WellFormed(elf) && i <= k < |elf| == |p.dests| && p.base == BaseOf(elf, target, i)
    requires !Passes(elf, target, limit, k) && forall j :: i <= j < k ==> Passes(elf, target, limit, j)
    ensures Place(elf, i, target, limit, p, m).0 == if elf[k].IsText() || elf[k].IsData() then Halted else Failure
    decreases |elf| - i
  {
    hide BaseOf, PutBytes, Section.Contents, Section.Placed, Section.IsText, Section.IsData;
    var r := PlaceOne(elf[i], i, target, limit, p, m);
    if i < k {
      assert Passes(elf, target, limit, i);
      NextBase(elf, target, i);
      PlaceStops(elf, target, limit, i + 1, r.1, r.2, k);
    }
  }

  /** The first section that does not pass decides: in no region the load is given up, otherwise the loader
      halts. */
  lemma LayoutStopsExactly(elf: Elf, target: word, limit: word, m: Mem, k: nat)
    requires WellFormed(elf) && FirstBad(elf, target, limit, k)
    ensures Place(elf, 0, target, limit, InitialPlacement(elf, target), m).0
            == if 0x0200_0000 <= elf[k].address < 0xC000_0000 then Halted else Failure
  {
    hide Place, Passes;
    EmptyBase(elf, target);
    PlaceStops(elf, target, limit, 0, InitialPlacement(elf, target), m, k);
  }

  /** So does the first act that does not succeed: a missing symbol halts, anything else gives the load up. */
  lemma {:induction false} ActsStop(m: Mem, t: Table, acts: seq<Act>, k: nat)
    requires t.InMemory() && k < |acts| && (forall x :: 0 <= x < k ==> acts[x].Apply?)
    requires var r := RunLinks(m, t, FixedOps(acts[..k]));
             r.ok && (acts[k].Apply? ==> !LinkOne(r.mem, t, acts[k].link, RELOC_TRAMP_FIXED).ok)
    ensures RunActs(m, t, acts).0 == if acts[k] == Halt then Halted else Failure
    decreases k
  {
    hide LinkOne;
    if k > 0 {
      assert acts[..k][0] == acts[0] && acts[..k][1..] == acts[1..][..k - 1];
      assert FixedOps(acts[..k])[1..] == FixedOps(acts[1..][..k - 1]);
      ActsStop(LinkOne(m, t, acts[0].link, RELOC_TRAMP_FIXED).mem, t, acts[1..], k - 1);
    } else {
      assert FixedOps(acts[..0]) == [];
    }
  }

  /** A start that is given up reverts: there is no room, a section in no region is the first not to pass, or
      the link pass fails. It halts in every other case but success. */
  lemma StartGivesUp(m: Mem, codeEnd: word, elf: Elf, entry: word, sys: System)
    requires WellFormed(elf) && ModuleTable(codeEnd).InMemory()
    ensures var target, t := PayloadStart(elf), ModuleTable(codeEnd);
            Start(m, codeEnd, elf, entry, sys).0 == Reverted <==>
            || W(Room(elf)) > Sub(PAYLOAD_END, ModuleDataStart(codeEnd))
            || (exists k: nat :: InNoRegion(elf, target, PAYLOAD_END, k))
            || (Succeeds(elf, target, PAYLOAD_END, m)
                && var p, image := Final(elf, target, PAYLOAD_END, m), Image(elf, target, PAYLOAD_END, m);
                RunActs(image, t, ModuleActs(elf, p.dests, 0, target, p.base)).0 == Failure)
  {
    hide Place, RunActs, ModuleActs, ModuleImports, RunImports, Room, And, Clear, WellFormed, ModuleTable,
         ModuleDataStart, Passes;
    FewSections(elf);
    var target := PayloadStart(elf);
    var placed := Place(elf, 0, target, PAYLOAD_END, InitialPlacement(elf, target), m).0;
    LayoutSucceedsExactly(elf, target, PAYLOAD_END, m);
    if placed != Success {
      var k := FindFirstBad(elf, target, PAYLOAD_END);
      LayoutStopsExactly(elf, target, PAYLOAD_END, m, k);
      assert placed == Failure <==> InNoRegion(elf, target, PAYLOAD_END, k);
    }
  }

  /** Section k is the first that does not pass, and lies neither in the text nor in the data region. */
  predicate InNoRegion(elf: Elf, target: word, limit: word, k: nat) {
    FirstBad(elf, target, limit, k) && !(0x0200_0000 <= elf[k].address < 0xC000_0000)
  }

  lemma FindFirstBad(elf: Elf, target: word, limit: word) returns (k: nat)
    requires !(forall k :: 0 <= k < |elf| ==> Passes(elf, target, limit, k))
    ensures FirstBad(elf, target, limit, k)
  {
    hide Passes;
    k := 0;
    while Passes(elf, target, limit, k)
      invariant k < |elf| && forall j :: 0 <= j < k ==> Passes(elf, target, limit, j)
      decreases |elf| - k
    {
      k := k + 1;
    }
  }

  // ----- the passes as one run -----

  lemma {:induction false} ActsSucceed(m: Mem, t: Table, acts: seq<Act>)
    requires t.InMemory() && forall x :: 0 <= x < |acts| ==> acts[x].Apply?
    ensures RunActs(m, t, acts).0 == Success <==> RunLinks(m, t, FixedOps(acts)).ok
    ensures RunActs(m, t, acts).0 == Success ==> RunActs(m, t, acts).1 == RunLinks(m, t, FixedOps(acts)).mem
    decreases |acts|
  {
    hide LinkOne;
    if acts != [] {
      ActsSucceed(LinkOne(m, t, acts[0].link, RELOC_TRAMP_FIXED).mem, t, acts[1..]);
      assert FixedOps(acts)[1..] == FixedOps(acts[1..]);
    }
  }

  lemma {:induction false} ImportsSucceed(m: Mem, t: Table, relocData: seq<RelocationData>, sys: System)
    requires t.InMemory() && forall x :: 0 <= x < |relocData| ==> ImportAddress(sys, relocData[x]).Some?
    ensures RunImports(m, t, relocData, sys).ok <==> RunLinks(m, t, ImportOps(relocData, sys)).ok
    decreases |relocData|
  {
    hide LinkOne, ImportAddress;
    if relocData != [] {
      var l := ImportLink(relocData[0], ImportAddress(sys, relocData[0]).value);
      ImportsSucceed(LinkOne(m, t, l, RELOC_TRAMP_IMPORT_DONE).mem, t, relocData[1..], sys);
      assert ImportOps(relocData, sys)[1..] == ImportOps(relocData[1..], sys);
    }
  }

  lemma {:induction false} RunSplits(m: Mem, t: Table, xs: seq<Op>, ys: seq<Op>)
    requires t.InMemory()
    ensures RunLinks(m, t, xs + ys).ok <==> RunLinks(m, t, xs).ok && RunLinks(RunLinks(m, t, xs).mem, t, ys).ok
    decreases |xs|
  {
    hide LinkOne;
    if xs == [] {
      assert xs + ys == ys;
    } else {
      assert (xs + ys)[0] == xs[0] && (xs + ys)[1..] == xs[1..] + ys;
      RunSplits(LinkOne(m, t, xs[0].link, xs[0].mark).mem, t, xs[1..], ys);
    }
  }

  /** Everything in front of the run succeeds: every entry is applied, and every import is found. */
  ghost predicate Resolvable(elf: Elf, p: Placement, sys: System)
    requires WellFormed(elf) && |elf| == |p.dests|
  {
    && (forall x :: 0 <= x < |ModuleActs(elf, p.dests, 0, PayloadStart(elf), p.base)| ==>
          ModuleActs(elf, p.dests, 0, PayloadStart(elf), p.base)[x].Apply?)
    && ModuleImports(elf, p.dests, 0).Some?
    && forall x :: 0 <= x < |ModuleImports(elf, p.dests, 0).value| ==>
         ImportAddress(sys, ModuleImports(elf, p.dests, 0).value[x]).Some?
  }

  /** The operations of the run. */
  ghost function RunOps(elf: Elf, p: Placement, sys: System): seq<Op>
    requires WellFormed(elf) && |elf| == |p.dests| && Resolvable(elf, p, sys)
  {
    FixedOps(ModuleActs(elf, p.dests, 0, PayloadStart(elf), p.base))
        + ImportOps(ModuleImports(elf, p.dests, 0).value, sys)
  }

  lemma {:induction false} AppliedActs(m: Mem, t: Table, acts: seq<Act>)
    requires t.InMemory() && RunActs(m, t, acts).0 == Success
    ensures forall x :: 0 <= x < |acts| ==> acts[x].Apply?
    decreases |acts|
  {
    hide LinkOne;
    if acts != [] { AppliedActs(LinkOne(m, t, acts[0].link, RELOC_TRAMP_FIXED).mem, t, acts[1..]); }
  }

  lemma {:induction false} FoundImports(m: Mem, t: Table, relocData: seq<RelocationData>, sys: System)
    requires t.InMemory() && RunImports(m, t, relocData, sys).ok
    ensures forall x :: 0 <= x < |relocData| ==> ImportAddress(sys, relocData[x]).Some?
    decreases |relocData|
  {
    hide LinkOne, ImportAddress;
    if relocData != [] {
      var l := ImportLink(relocData[0], ImportAddress(sys, relocData[0]).value);
      FoundImports(LinkOne(m, t, l, RELOC_TRAMP_IMPORT_DONE).mem, t, relocData[1..], sys);
    }
  }

  /** The payload is entered exactly when there is room, the layout succeeds, every entry and every import
      resolves, and the run of all of them succeeds on the loaded image. */
  lemma StartsAsRun(m: Mem, codeEnd: word, elf: Elf, entry: word, sys: System)
    requires WellFormed(elf) && ModuleTable(codeEnd).InMemory()
    ensures Start(m, codeEnd, elf, entry, sys).0.EntryPoint? <==>
            && W(Room(elf)) <= Sub(PAYLOAD_END, ModuleDataStart(codeEnd))
            && Succeeds(elf, PayloadStart(elf), PAYLOAD_END, m)
            && var p, image := Final(elf, PayloadStart(elf), PAYLOAD_END, m),
                Image(elf, PayloadStart(elf), PAYLOAD_END, m);
            && Resolvable(elf, p, sys)
            && RunLinks(image, ModuleTable(codeEnd), RunOps(elf, p, sys)).ok
  {
    hide Place, RunActs, ModuleActs, ModuleImports, RunImports, RunLinks, Room, And, Clear, WellFormed, ImportAddress,
         ModuleTable, ModuleDataStart;
    FewSections(elf);
    var target, t := PayloadStart(elf), ModuleTable(codeEnd);
    if W(Room(elf)) <= Sub(PAYLOAD_END, ModuleDataStart(codeEnd)) && Succeeds(elf, target, PAYLOAD_END, m) {
      var p, image := Final(elf, target, PAYLOAD_END, m), Image(elf, target, PAYLOAD_END, m);
      var acts, imports := ModuleActs(elf, p.dests, 0, target, p.base), ModuleImports(elf, p.dests, 0);
      var m2 := RunActs(image, t, acts).1;
      if RunActs(image, t, acts).0 == Success { AppliedActs(image, t, acts); }
      if imports.Some? && RunImports(m2, t, imports.value, sys).ok { FoundImports(m2, t, imports.value, sys); }
      if Resolvable(elf, p, sys) {
        ActsSucceed(image, t, acts);
        ImportsSucceed(m2, t, imports.value, sys);
        RunSplits(image, t, FixedOps(acts), ImportOps(imports.value, sys));
      }
    }
  }

  // ----- from the file -----

  /** The symbol of a linked entry exists, is defined in an ordinary section or absolute, and resolves. */
  predicate LinkResolves(elf: Elf, id: Id)
    requires ValidId(elf, id)
  {
    var symbol := SymbolOf(elf, id);
    && symbol.Some?
    && (symbol.value.sectionIndex == SHN_ABS || symbol.value.sectionIndex <= SHN_LORESERVE)
    && Resolve(symbol.value.value, PayloadStart(elf), BaseOf(elf, PayloadStart(elf), |elf|)).Resolved?
  }

  /** Every entry resolves: linked ones in the file, imports in the system. */
  ghost predicate AllResolve(elf: Elf, sys: System) {
    forall id :: IsRelocation(elf, id) ==>
      if IsImport(elf, elf[id.section], id.entry) then Export(elf, sys, id) != 0 else LinkResolves(elf, id)
  }

  lemma ActApplies(elf: Elf, p: Placement, id: Id)
    requires ValidId(elf, id) && !IsImport(elf, elf[id.section], id.entry) && Patched(elf, id) < |p.dests|
    requires p.base == BaseOf(elf, PayloadStart(elf), |elf|)
    ensures EntryAct(elf, elf[id.section], id.entry, p.dests[Patched(elf, id)], PayloadStart(elf), p.base).Apply?
            <==> LinkResolves(elf, id)
  {
    hide BaseOf, PayloadStart;
  }

  lemma ImportFound(elf: Elf, dests: seq<word>, sys: System, id: Id)
    requires ValidId(elf, id) && IsImport(elf, elf[id.section], id.entry) && Patched(elf, id) < |dests|
    requires RplOf(elf, elf[id.section], id.entry).Some?
    ensures ImportAddress(sys, Deferred(elf, dests, elf[id.section], id.entry)).Some? <==> Export(elf, sys, id) != 0
  {
    hide CreateImportRPL;
  }

  /** The import pass does not halt if every entry has a symbol. */
  lemma {:induction false} EntriesCollected(elf: Elf, dests: seq<word>, k: nat, j: nat)
    requires k < |elf| == |dests| && elf[k].info < |dests| && j <= |elf[k].entries|
    requires forall x :: 0 <= x < |elf[k].entries| ==> GetSymbol(elf, elf[k], elf[k].entries[x].symbol).Some?
    ensures SectionImports(elf, dests, elf[k], j).Some?
    decreases |elf[k].entries| - j
  {
    hide IsImport, RplOf, GetSymbol, Deferred;
    if j < |elf[k].entries| { EntriesCollected(elf, dests, k, j + 1); }
  }

  lemma {:induction false} ImportsCollected(elf: Elf, dests: seq<word>, k: nat)
    requires WellFormed(elf) && k <= |elf| == |dests|
    requires forall id :: IsRelocation(elf, id) ==> SymbolOf(elf, id).Some?
    ensures ModuleImports(elf, dests, k).Some?
    decreases |elf| - k
  {
    hide SectionImports, GetSymbol, Section.HasRelocations;
    if k < |elf| {
      ImportsCollected(elf, dests, k + 1);
      if elf[k].HasRelocations() {
        forall x | 0 <= x < |elf[k].entries| ensures GetSymbol(elf, elf[k], elf[k].entries[x].symbol).Some? {
          assert IsRelocation(elf, Id(k, x)) && SymbolOf(elf, Id(k, x)).Some?;
        }
        EntriesCollected(elf, dests, k, 0);
      }
    }
  }

  lemma SymbolsExist(elf: Elf, sys: System)
    requires AllResolve(elf, sys)
    ensures forall id :: IsRelocation(elf, id) ==> SymbolOf(elf, id).Some?
  {
    hide RplOf, Resolve, BaseOf, PayloadStart;
  }

  lemma LinkedIds(elf: Elf, x: nat)
    requires Clean(elf) && |elf| < 0x1_0000_0000 && x < |LinkIds(elf, 0)|
    ensures var id := LinkIds(elf, 0)[x]; IsRelocation(elf, id) && !IsImport(elf, elf[id.section], id.entry)
  {
    hide LinkIds, IsImport, WellNamed, TextFirst, RangesApart, IsRelocation, Within, FieldsApart, WellFormed,
         Section.Allocated, Section.HasRelocations;
    var id := LinkIds(elf, 0)[x];
    CountLinks(elf, 0, id);
    ListedExactlyOnce(elf, id);
    assert multiset(LinkIds(elf, 0))[id] > 0;
  }

  /** The passes resolve everything exactly when the file and the system do. */
  lemma ResolvableExactly(elf: Elf, p: Placement, sys: System)
    requires Clean(elf) && |elf| == |p.dests| && p.base == BaseOf(elf, PayloadStart(elf), |elf|)
    ensures WellFormed(elf) && (Resolvable(elf, p, sys) <==> AllResolve(elf, sys))
  {
    hide Clean, BaseOf, PayloadStart, Resolvable, AllResolve;
    CleanParts(elf);
    if Resolvable(elf, p, sys) { ResolvedInFile(elf, p, sys); }
    if AllResolve(elf, sys) { ResolvedInPasses(elf, p, sys); }
  }

  lemma ResolvedInFile(elf: Elf, p: Placement, sys: System)
    requires Clean(elf) && WellFormed(elf) && |elf| == |p.dests| && Resolvable(elf, p, sys)
    requires p.base == BaseOf(elf, PayloadStart(elf), |elf|)
    ensures AllResolve(elf, sys)
  {
    hide Clean, BaseOf, PayloadStart, IsImport, LinkIds, ImportIds, KeptIds, ModuleActs, ModuleImports, EntryAct,
         LinkResolves, Export, ImportAddress, Deferred, RplOf, WellFormed, WellNamedFrom;
    CleanParts(elf);
    ActsFollowIds(elf, p.dests, 0, PayloadStart(elf), p.base);
    ImportsFollowIds(elf, p.dests, 0);
    AllKeptExactly(elf, 0);
    forall id | IsRelocation(elf, id)
      ensures if IsImport(elf, elf[id.section], id.entry) then Export(elf, sys, id) != 0 else LinkResolves(elf, id)
    {
      if IsImport(elf, elf[id.section], id.entry) {
        var x := ImportIndex(elf, id);
        assert ImportIds(elf, 0)[x - |LinkIds(elf, 0)|] == id;
        ImportFound(elf, p.dests, sys, id);
      } else {
        var x := LinkIndex(elf, id);
        ActApplies(elf, p, id);
      }
    }
  }

  lemma ResolvedInPasses(elf: Elf, p: Placement, sys: System)
    requires Clean(elf) && WellFormed(elf) && |elf| == |p.dests| && AllResolve(elf, sys)
    requires p.base == BaseOf(elf, PayloadStart(elf), |elf|)
    ensures Resolvable(elf, p, sys)
  {
    hide Clean, BaseOf, PayloadStart, IsImport, LinkIds, ImportIds, KeptIds, ModuleActs, ModuleImports, EntryAct,
         LinkResolves, Export, ImportAddress, Deferred, RplOf, WellFormed, WellNamedFrom;
    CleanParts(elf);
    SymbolsExist(elf, sys);
    ImportsCollected(elf, p.dests, 0);
    ActsFollowIds(elf, p.dests, 0, PayloadStart(elf), p.base);
    ImportsFollowIds(elf, p.dests, 0);
    AllKeptExactly(elf, 0);
    var acts, imports := ModuleActs(elf, p.dests, 0, PayloadStart(elf), p.base), ModuleImports(elf, p.dests, 0).value;
    forall x | 0 <= x < |acts| ensures acts[x].Apply? {
      LinkedIds(elf, x);
      ActApplies(elf, p, LinkIds(elf, 0)[x]);
    }
    forall x | 0 <= x < |imports| ensures ImportAddress(sys, imports[x]).Some? {
      ImportFound(elf, p.dests, sys, ImportIds(elf, 0)[x]);
    }
  }

  // ----- the run as the file describes it -----

  /** Entry id as one operation, from its place in the loaded payload to its symbol or its export. */
  function PlannedOp(elf: Elf, sys: System, id: Id): Op
    requires ValidId(elf, id) && Patched(elf, id) < |elf|
  {
    if IsImport(elf, elf[id.section], id.entry) then ImportOp(elf, sys, id)
    else
      var e := EntryOf(elf, id);
      Op(Link(e.kind, LoadedAt(elf, PayloadStart(elf), Patched(elf, id), e.offset), e.addend, 0,
          LinkedAddress(elf, id)),
         RELOC_TRAMP_FIXED)
  }

  /** The address that linking gives to the symbol of entry id, or 0. */
  function LinkedAddress(elf: Elf, id: Id): word
    requires ValidId(elf, id)
  {
    if SymbolOf(elf, id).None? then 0
    else match Resolve(SymbolOf(elf, id).value.value, PayloadStart(elf), BaseOf(elf, PayloadStart(elf), |elf|))
      case Resolved(address) => address
      case Import => 0
      case Unhandled => 0
  }

  /** All entries, linked ones first. */
  ghost function Plan(elf: Elf, sys: System): (r: seq<Op>)
    requires Clean(elf)
    ensures |elf| < 0x1_0000_0000 && |r| == |AllIds(elf)|
  {
    CleanParts(elf);
    seq(|AllIds(elf)|, (x: nat) requires x < |AllIds(elf)| =>
      var id := AllIds(elf)[x];
      if ValidId(elf, id) && Patched(elf, id) < |elf| then PlannedOp(elf, sys, id)
      else Op(Link(R_PPC_NONE, 0, 0, 0, 0), RELOC_TRAMP_FIXED))
  }

  /** The same relocation for the linker. */
  predicate SameOp(op: Op, op': Op) {
    && op.mark == op'.mark && op.link.kind == op'.link.kind && op.link.addend == op'.link.addend
    && op.link.Target() == op'.link.Target() && op.link.Value() == op'.link.Value()
  }

  lemma SameTakers(ops: seq<Op>, ops': seq<Op>, i: nat)
    requires |ops| == |ops'| && i <= |ops| && forall x :: 0 <= x < |ops| ==> SameOp(ops[x], ops'[x])
    ensures Takers(ops[..i]) == Takers(ops'[..i])
  {
    forall x | 0 <= x < i ensures SameOp(ops[..i][x], ops'[..i][x]) {}
    EqualTakers(ops[..i], ops'[..i]);
  }

  lemma {:induction false} EqualTakers(ops: seq<Op>, ops': seq<Op>)
    requires |ops| == |ops'| && forall x :: 0 <= x < |ops| ==> SameOp(ops[x], ops'[x])
    ensures Takers(ops) == Takers(ops')
    decreases |ops|
  {
    hide SameOp, Link.Far;
    if ops != [] {
      SameReach(ops[0], ops'[0]);
      EqualTakers(ops[1..], ops'[1..]);
    }
  }

  lemma SameReach(op: Op, op': Op)
    requires SameOp(op, op')
    ensures op.link.Far() == op'.link.Far() && Lasting(op.mark) == Lasting(op'.mark)
    ensures Linkable(op.link) == Linkable(op'.link)
  {
  }

  /** What one operation needs is the same for the same relocations and the same available slots. */
  lemma SamePlaceable(m: Mem, m': Mem, t: Table, ops: seq<Op>, ops': seq<Op>, i: nat)
    requires t.InMemory() && |ops| == |ops'| && i < |ops| && forall x :: 0 <= x < |ops| ==> SameOp(ops[x], ops'[x])
    requires AvailableSlots(m, t, 0) == AvailableSlots(m', t, 0)
    ensures Placeable(m, t, ops, i) == Placeable(m', t, ops', i)
  {
    hide AvailableSlots, Linkable, Link.Far, Takers;
    SameTakers(ops, ops', i);
    SameReach(ops[i], ops'[i]);
  }

  lemma SameRuns(m: Mem, m': Mem, t: Table, ops: seq<Op>, ops': seq<Op>)
    requires t.InMemory() && |ops| == |ops'| && forall x :: 0 <= x < |ops| ==> SameOp(ops[x], ops'[x])
    requires AvailableSlots(m, t, 0) == AvailableSlots(m', t, 0)
    ensures AllPlaceable(m, t, ops) <==> AllPlaceable(m', t, ops')
  {
    hide AvailableSlots, Placeable, SameOp;
    forall i | 0 <= i < |ops| ensures Placeable(m, t, ops, i) == Placeable(m', t, ops', i) {
      SamePlaceable(m, m', t, ops, ops', i);
    }
  }

  lemma SameRange(m: Mem, m': Mem, a: word, n: nat)
    requires a + n <= 0x1_0000_0000 && forall b: word :: a <= b < a + n ==> m'[b] == m[b]
    ensures GetBytes(m', a, n) == GetBytes(m, a, n)
  {
  }

  /** The layout pass leaves the table as it was. */
  lemma SlotsKept(m: Mem, codeEnd: word, elf: Elf)
    requires Clean(elf) && WellFormed(elf) && Fits(codeEnd, elf)
    requires W(Room(elf)) <= Sub(PAYLOAD_END, ModuleDataStart(codeEnd))
    ensures var t, image := ModuleTable(codeEnd), Image(elf, PayloadStart(elf), PAYLOAD_END, m);
            AvailableSlots(image, t, 0) == AvailableSlots(m, t, 0)
  {
    hide Room, And, ModuleDataStart, TargetAddress, Place, Clean, WellFormed, AvailableSlots, ModuleTable, WordOf;
    var t, target := ModuleTable(codeEnd), PayloadStart(elf);
    var image := Image(elf, target, PAYLOAD_END, m);
    LoadsInWindow(codeEnd, elf);
    EmptyBase(elf, target);
    forall j: nat | j < t.length ensures Available(image, t, j) == Available(m, t, j) {
      var a := t.Slot(j) + 16;
      forall b: word | a <= b < a + 4 ensures image[b] == m[b] {
        PlaceKeepsOutside(elf, PAYLOAD_END, 0, InitialPlacement(elf, target), m, b);
      }
      SameRange(m, image, a, 4);
    }
    SameAvailable(m, image, t, 0);
  }

  /** The operations of the run are those that the file describes. */
  lemma OpsArePlanned(elf: Elf, m: Mem, sys: System, ops: seq<Op>)
    requires Clean(elf) && WellFormed(elf) && Succeeds(elf, PayloadStart(elf), PAYLOAD_END, m) && |elf| < 0x1_0000_0000
    requires OpsFor(elf, Final(elf, PayloadStart(elf), PAYLOAD_END, m), sys, ops)
    ensures |ops| == |Plan(elf, sys)| && forall x :: 0 <= x < |ops| ==> SameOp(ops[x], Plan(elf, sys)[x])
  {
    hide Clean, LinkIds, ImportIds, IsImport, Stems, Imported, Linked, Succeeds, Final, PayloadStart, SameOp,
         PlannedOp, WellFormed, IsRelocation;
    IdsDistinct(elf);
    var p := Final(elf, PayloadStart(elf), PAYLOAD_END, m);
    forall x | 0 <= x < |ops| ensures SameOp(ops[x], Plan(elf, sys)[x]) {
      var id := AllIds(elf)[x];
      CleanWithin(elf, id);
      if x < |LinkIds(elf, 0)| { LinkedIds(elf, x); }
      OpIsPlanned(elf, m, p, sys, ops[x], id, x < |LinkIds(elf, 0)|);
    }
  }

  lemma OpIsPlanned(elf: Elf, m: Mem, p: Placement, sys: System, op: Op, id: Id, linked: bool)
    requires Clean(elf) && WellFormed(elf) && Succeeds(elf, PayloadStart(elf), PAYLOAD_END, m)
    requires p == Final(elf, PayloadStart(elf), PAYLOAD_END, m) && IsRelocation(elf, id)
    requires ValidId(elf, id) && Patched(elf, id) < |elf| && elf[Patched(elf, id)].Placed()
    requires Stems(elf, p.dests, op, id)
    requires if linked then Linked(elf, p, op, id)
             && !IsImport(elf, elf[id.section], id.entry) else Imported(elf, p, sys, op, id)
    ensures SameOp(op, PlannedOp(elf, sys, id))
  {
    hide Clean, WellFormed, IsImport, Succeeds, Final, PayloadStart, LoadedAt, BaseOf, Section.Placed, IsRelocation,
         Resolve, CreateImportRPL, GetSymbol;
    LayoutFormula(elf, PayloadStart(elf), PAYLOAD_END, m);
    PlaceIsLoadedAt(elf, PayloadStart(elf), Patched(elf, id), EntryOf(elf, id).offset);
  }

  /** The operations of the run, as the theorems about started payloads see them. */
  lemma RunOpsStem(elf: Elf, m: Mem, sys: System)
    requires Clean(elf) && WellFormed(elf) && Succeeds(elf, PayloadStart(elf), PAYLOAD_END, m) && |elf| < 0x1_0000_0000
    requires Resolvable(elf, Final(elf, PayloadStart(elf), PAYLOAD_END, m), sys)
    ensures var p := Final(elf, PayloadStart(elf), PAYLOAD_END, m); OpsFor(elf, p, sys, RunOps(elf, p, sys))
  {
    hide Clean, Succeeds, Final, ModuleActs, ModuleImports, LinkIds, ImportIds, Stems, Linked, Imported,
         WellNamedFrom, WellFormed, IsImport, ImportAddress, PayloadStart;
    CleanParts(elf);
    var p := Final(elf, PayloadStart(elf), PAYLOAD_END, m);
    LinksFollow(elf, p, ModuleActs(elf, p.dests, 0, PayloadStart(elf), p.base));
    ImportsFollow(elf, p, ModuleImports(elf, p.dests, 0).value, sys);
  }

  /** What a clean payload needs to start, told from the file, the system and the stub table before the
      start: room, sections that pass the guards, symbols and exports that resolve, and every relocation
      acceptable or in reach of the stub that it will be given. */
  ghost predicate CanStart(m: Mem, codeEnd: word, elf: Elf, sys: System)
    requires Clean(elf) && Fits(codeEnd, elf)
  {
    && Room(elf) <= PAYLOAD_END - ModuleDataStart(codeEnd)
    && (forall k :: 0 <= k < |elf| ==> Passes(elf, PayloadStart(elf), PAYLOAD_END, k))
    && AllResolve(elf, sys)
    && AllPlaceable(m, ModuleTable(codeEnd), Plan(elf, sys))
  }

  /** A clean payload that fits is entered exactly when it can start. */
  lemma PayloadStartsExactly(m: Mem, codeEnd: word, elf: Elf, entry: word, sys: System)
    requires Clean(elf) && Fits(codeEnd, elf)
    ensures WellFormed(elf)
    ensures Start(m, codeEnd, elf, entry, sys).0.EntryPoint? <==> CanStart(m, codeEnd, elf, sys)
  {
    hide Clean, Room, And, ModuleDataStart, TargetAddress, Succeeds, Final, Image, Passes, Resolvable, AllResolve,
         AllPlaceable, Plan, RunOps, Start, ModuleTable, WellFormed, PayloadStart;
    CleanParts(elf);
    StartsAsRun(m, codeEnd, elf, entry, sys);
    LayoutSucceedsExactly(elf, PayloadStart(elf), PAYLOAD_END, m);
    if Room(elf) <= PAYLOAD_END - ModuleDataStart(codeEnd) && Succeeds(elf, PayloadStart(elf), PAYLOAD_END, m) {
      RunSucceedsFromFile(m, codeEnd, elf, sys);
    }
  }

  lemma RunSucceedsFromFile(m: Mem, codeEnd: word, elf: Elf, sys: System)
    requires Clean(elf) && WellFormed(elf) && Fits(codeEnd, elf) && Room(elf) <= PAYLOAD_END - ModuleDataStart(codeEnd)
    requires Succeeds(elf, PayloadStart(elf), PAYLOAD_END, m)
    ensures var p, image := Final(elf, PayloadStart(elf), PAYLOAD_END, m),
            Image(elf, PayloadStart(elf), PAYLOAD_END, m);
            && (Resolvable(elf, p, sys) <==> AllResolve(elf, sys))
            && (Resolvable(elf, p, sys) ==>
                  (RunLinks(image, ModuleTable(codeEnd), RunOps(elf, p, sys)).ok
                   <==> AllPlaceable(m, ModuleTable(codeEnd), Plan(elf, sys))))
  {
    hide Clean, Room, And, ModuleDataStart, TargetAddress, Succeeds, Final, Image, Resolvable, AllResolve,
         AllPlaceable, Plan, RunOps, RunLinks, ModuleTable, WellFormed, OpsFor, SameOp, Separate, AllOffTable, BaseOf,
         AvailableSlots;
    CleanParts(elf);
    var target, t := PayloadStart(elf), ModuleTable(codeEnd);
    var p, image := Final(elf, target, PAYLOAD_END, m), Image(elf, target, PAYLOAD_END, m);
    LayoutFormula(elf, target, PAYLOAD_END, m);
    ResolvableExactly(elf, p, sys);
    if Resolvable(elf, p, sys) {
      var ops := RunOps(elf, p, sys);
      RunOpsStem(elf, m, sys);
      RunIsSeparate(codeEnd, elf, m, sys, ops);
      SeparateOffTable(t, ops);
      RunSucceedsExactly(image, t, ops);
      OpsArePlanned(elf, m, sys, ops);
      SlotsKept(m, codeEnd, elf);
      SameRuns(image, m, t, ops, Plan(elf, sys));
    }
  }
}

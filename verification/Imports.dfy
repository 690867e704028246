/** The relocations that are left for the import phase (getImportRelocationData), and the proof that the
    link pass and the import phase share the relocations of a module between them. */
module Imports {
  import opened Bits
  import opened Memory
  import opened Wrappers
  import opened ElfFile
  import opened ModuleDataFactory

  /** The library an import comes from, and whether it is data. */
  datatype ImportRPL = ImportRPL(name: string, isData: bool)

  datatype RelocationData = RelocationData(
    kind: byte, offset: word, addend: sword, destination: word, name: string, rpl: ImportRPL)

  function CreateImportRPL(raw: string): Option<ImportRPL> {
    if |raw| < |".fimport_"| then None
    else if ".fimport_" <= raw then Some(ImportRPL(raw[|".fimport_"|..], false))
    else if ".dimport_" <= raw then Some(ImportRPL(raw[|".dimport_"|..], true))
    else None
  }

  /** An import section's name is read back exactly as it was made: a prefix for functions or data, and
      the library. */
  lemma ImportNameExact(raw: string, r: ImportRPL)
    ensures CreateImportRPL(raw) == Some(r) <==> raw == (if r.isData then ".dimport_" else ".fimport_") + r.name
  {
    var n := |".fimport_"|;
    if CreateImportRPL(raw).Some? { assert raw == raw[..n] + raw[n..]; }
    if raw == (if r.isData then ".dimport_" else ".fimport_") + r.name {
      assert raw[n..] == r.name && raw[1] == if r.isData then 'd' else 'f';
    }
  }

  /** The name of import section i; sections of other kinds have none. */
  function ImportName(elf: Elf, i: nat): string {
    if i < |elf| && elf[i].kind == SHT_RPL_IMPORTS then elf[i].name else ""
  }

  function RplOf(elf: Elf, s: Section, j: nat): Option<ImportRPL>
    requires j < |s.entries|
  {
    match GetSymbol(elf, s, s.entries[j].symbol)
    case None => None
    case Some(sym) => CreateImportRPL(ImportName(elf, sym.sectionIndex))
  }

  /** An entry as the import phase gets it. */
  function Deferred(elf: Elf, dests: seq<word>, s: Section, j: nat): RelocationData
    requires j < |s.entries| && s.info < |dests| && IsImport(elf, s, j) && RplOf(elf, s, j).Some?
  {
    var e := s.entries[j];
    RelocationData(e.kind, Sub(e.offset, 0x02000000), e.addend, Plus(dests[s.info], 0x02000000),
                   GetSymbol(elf, s, e.symbol).value.name, RplOf(elf, s, j).value)
  }

  /** The deferred entries of one section from j on; None when a symbol is missing. An import section
      without a proper name ends the section early. */
  function SectionImports(elf: Elf, dests: seq<word>, s: Section, j: nat): Option<seq<RelocationData>>
    requires j <= |s.entries| && s.info < |dests|
    decreases |s.entries| - j
  {
    if j == |s.entries| then Some([])
    else if GetSymbol(elf, s, s.entries[j].symbol).None? then None
    else if !IsImport(elf, s, j) then SectionImports(elf, dests, s, j + 1)
    else if RplOf(elf, s, j).None? then Some([])
    else match SectionImports(elf, dests, s, j + 1)
      case None => None
      case Some(rest) => Some([Deferred(elf, dests, s, j)] + rest)
  }

  function ModuleImports(elf: Elf, dests: seq<word>, k: nat): Option<seq<RelocationData>>
    requires WellFormed(elf) && k <= |elf| == |dests|
    decreases |elf| - k
  {
    if k == |elf| then Some([])
    else
      var first := if elf[k].HasRelocations() then SectionImports(elf, dests, elf[k], 0) else Some([]);
      match (first, ModuleImports(elf, dests, k + 1))
      case (Some(xs), Some(ys)) => Some(xs + ys)
      case _ => None
  }

  // ----- collecting them by loops -----

  method GetSectionImports(elf: Elf, dests: seq<word>, s: Section, infoMap: map<nat, string>)
    returns (result: Option<seq<RelocationData>>)
    requires s.info < |dests|
    requires forall i: nat :: (if i in infoMap then infoMap[i] else "") == ImportName(elf, i)
    ensures result == SectionImports(elf, dests, s, 0)
  {
    hide CreateImportRPL, GetSymbol, Prepend;
    PrependEmpty();
    var found: seq<RelocationData> := [];
    assert Prepend([], SectionImports(elf, dests, s, 0)) == SectionImports(elf, dests, s, 0) by {
      PrependNothing(SectionImports(elf, dests, s, 0));
    }
    for j := 0 to |s.entries|
      invariant Prepend(found, SectionImports(elf, dests, s, j)) == SectionImports(elf, dests, s, 0)
    {
      var e := s.entries[j];
      var symbol := GetSymbol(elf, s, e.symbol);
      if symbol.None? { return None; }
      if symbol.value.value < 0xC0000000 { continue; }
      var i := symbol.value.sectionIndex;
      var rpl := CreateImportRPL(if i in infoMap then infoMap[i] else "");
      if rpl.None? {
        return Some(found);
      }
      PrependOne(found, Deferred(elf, dests, s, j), SectionImports(elf, dests, s, j + 1));
      assert Prepend([Deferred(elf, dests, s, j)], SectionImports(elf, dests, s, j + 1))
          == SectionImports(elf, dests, s, j)
        by { ImportStep(elf, dests, s, j); }
      found := found + [RelocationData(e.kind, Sub(e.offset, 0x02000000), e.addend,
                                       Plus(dests[s.info], 0x02000000), symbol.value.name, rpl.value)];
    }
    result := Some(found);
  }

  lemma ImportStep(elf: Elf, dests: seq<word>, s: Section, j: nat)
    requires j < |s.entries| && s.info < |dests| && IsImport(elf, s, j) && RplOf(elf, s, j).Some?
    ensures Prepend([Deferred(elf, dests, s, j)], SectionImports(elf, dests, s, j + 1))
            == SectionImports(elf, dests, s, j)
  {
    hide Deferred, RplOf;
  }

  lemma PrependEmpty()
    ensures forall xs: seq<RelocationData> ::
              Prepend(xs, Some([])) == Some(xs) && Prepend<RelocationData>(xs, None) == None
  {
    forall xs: seq<RelocationData> ensures Prepend(xs, Some([])) == Some(xs) {
      assert xs + [] == xs;
    }
  }

  lemma PrependOne(xs: seq<RelocationData>, x: RelocationData, r: Option<seq<RelocationData>>)
    ensures Prepend(xs, Prepend([x], r)) == Prepend(xs + [x], r)
  {
    match r
    case None =>
    case Some(ys) =>
      assert xs + ([x] + ys) == (xs + [x]) + ys;
      assert Prepend(xs, Some([x] + ys)) == Some(xs + ([x] + ys)) == Some((xs + [x]) + ys);
  }

  method GetImportRelocationData(elf: Elf, dests: seq<word>) returns (result: Option<seq<RelocationData>>)
    requires WellFormed(elf) && |elf| == |dests|
    ensures result == ModuleImports(elf, dests, 0)
  {
    hide SectionImports, ImportName, WellFormed;
    var infoMap: map<nat, string> := map[];
    for i := 0 to |elf|
      invariant forall k :: k in infoMap <==> 0 <= k < i && elf[k].kind == SHT_RPL_IMPORTS
      invariant forall k :: k in infoMap ==> infoMap[k] == elf[k].name
    {
      if elf[i].kind == SHT_RPL_IMPORTS { infoMap := infoMap[i := elf[i].name]; }
    }
    NamesCollected(elf, infoMap);
    InfoInRange(elf);
    var found: seq<RelocationData> := [];
    PrependNothing(ModuleImports(elf, dests, 0));
    for k := 0 to |elf|
      invariant Prepend(found, ModuleImports(elf, dests, k)) == ModuleImports(elf, dests, 0)
    {
      ghost var rest := ModuleImports(elf, dests, k + 1);
      if elf[k].HasRelocations() {
        var r := GetSectionImports(elf, dests, elf[k], infoMap);
        if r.None? { return None; }
        if rest.Some? { assert found + (r.value + rest.value) == found + r.value + rest.value; }
        found := found + r.value;
      } else {
        if rest.Some? { assert [] + rest.value == rest.value; }
      }
    }
    assert found + [] == found;
    result := Some(found);
  }

  lemma NamesCollected(elf: Elf, infoMap: map<nat, string>)
    requires forall k :: k in infoMap <==> 0 <= k < |elf| && elf[k].kind == SHT_RPL_IMPORTS
    requires forall k :: k in infoMap ==> infoMap[k] == elf[k].name
    ensures forall i: nat :: (if i in infoMap then infoMap[i] else "") == ImportName(elf, i)
  {
  }

  lemma InfoInRange(elf: Elf)
    requires WellFormed(elf)
    ensures forall k :: 0 <= k < |elf| && elf[k].HasRelocations() ==> elf[k].info < |elf|
  {
  }

  // ----- every relocation is handled once -----

  /** The deferred pair of destination and offset denotes the place that the link pass would patch. */
  lemma DeferredTarget(elf: Elf, dests: seq<word>, s: Section, j: nat)
    requires j < |s.entries| && s.info < |dests| && IsImport(elf, s, j) && RplOf(elf, s, j).Some?
    ensures var r := Deferred(elf, dests, s, j);
            Plus(r.destination, r.offset) == Plus(dests[s.info], s.entries[j].offset)
  {
    var d, o := dests[s.info], s.entries[j].offset;
    assert Plus(Plus(d, 0x02000000), Sub(o, 0x02000000)) == Plus(d, o);
  }

  /** The imports of section k from entry j on. */
  function ImportEntryIds(elf: Elf, k: nat, j: nat): (r: seq<Id>)
    requires k < |elf| && j <= |elf[k].entries|
    ensures forall x :: 0 <= x < |r| ==> ValidId(elf, r[x]) && r[x].section == k && IsImport(elf, elf[k], r[x].entry)
    decreases |elf[k].entries| - j
  {
    if j == |elf[k].entries| then []
    else if !IsImport(elf, elf[k], j) then ImportEntryIds(elf, k, j + 1)
    else [Id(k, j)] + ImportEntryIds(elf, k, j + 1)
  }

  function ImportIds(elf: Elf, k: nat): (r: seq<Id>)
    requires k <= |elf|
    ensures forall x :: 0 <= x < |r| ==>
              ValidId(elf, r[x]) && elf[r[x].section].HasRelocations() && IsImport(elf, elf[r[x].section], r[x].entry)
    decreases |elf| - k
  {
    if k == |elf| then []
    else (if elf[k].HasRelocations() then ImportEntryIds(elf, k, 0) else []) + ImportIds(elf, k + 1)
  }

  /** What the link pass works through, from section i on. */
  function LinkIds(elf: Elf, i: nat): seq<Id>
    requires i <= |elf| < 0x1_0000_0000
    decreases |elf| - i
  {
    if i == |elf| then []
    else (if elf[i].Allocated() then SectionIds(elf, i, 0) else []) + LinkIds(elf, i + 1)
  }

  /** Every entry of a relocation section of the module. */
  ghost predicate IsRelocation(elf: Elf, id: Id) {
    ValidId(elf, id) && elf[id.section].HasRelocations()
  }

  /** Relocation sections are the only sections whose sh_info names an allocated section, and they all
      name one. */
  ghost predicate RelocationsOnly(elf: Elf) {
    && (forall k :: 0 <= k < |elf| && elf[k].HasRelocations() ==> elf[k].info < |elf| && elf[elf[k].info].Allocated())
    && (forall k :: 0 <= k < |elf| && elf[k].entries != [] && elf[k].info < |elf| && elf[elf[k].info].Allocated() ==>
          elf[k].HasRelocations())
  }

  function One(b: bool): nat { if b then 1 else 0 }

  lemma {:induction false} CountEntries(elf: Elf, k: nat, j: nat, id: Id)
    requires k < |elf| && j <= |elf[k].entries|
    ensures multiset(EntryIds(elf, k, j))[id] ==
            One(id.section == k && j <= id.entry < |elf[k].entries| && !IsImport(elf, elf[k], id.entry))
    ensures multiset(ImportEntryIds(elf, k, j))[id] ==
            One(id.section == k && j <= id.entry < |elf[k].entries| && IsImport(elf, elf[k], id.entry))
    decreases |elf[k].entries| - j
  {
    hide IsImport;
    if j < |elf[k].entries| { CountEntries(elf, k, j + 1, id); }
  }

  /** Entry id is handled by linkSection for section i. */
  ghost predicate InPass(elf: Elf, id: Id, i: nat) {
    ValidId(elf, id) && elf[id.section].info == i && !IsImport(elf, elf[id.section], id.entry)
  }

  /** Entry id is handled by the link pass from section i on. */
  ghost predicate LinkedFrom(elf: Elf, id: Id, i: nat) {
    && ValidId(elf, id) && !IsImport(elf, elf[id.section], id.entry)
    && i <= elf[id.section].info < |elf| && elf[elf[id.section].info].Allocated()
  }

  lemma {:induction false} CountSection(elf: Elf, i: word, k: nat, id: Id)
    requires k <= |elf|
    ensures multiset(SectionIds(elf, i, k))[id] == One(InPass(elf, id, i) && k <= id.section)
    decreases |elf| - k
  {
    hide IsImport, EntryIds;
    if k < |elf| {
      CountEntries(elf, k, 0, id);
      CountSection(elf, i, k + 1, id);
    }
  }

  lemma LinkedFromStep(elf: Elf, id: Id, i: nat)
    requires i < |elf|
    ensures One(LinkedFrom(elf, id, i))
            == One(elf[i].Allocated() && InPass(elf, id, i)) + One(LinkedFrom(elf, id, i + 1))
  {
    hide IsImport, Section.Allocated;
  }

  lemma {:induction false} CountLinks(elf: Elf, i: nat, id: Id)
    requires i <= |elf| < 0x1_0000_0000
    ensures multiset(LinkIds(elf, i))[id] == One(LinkedFrom(elf, id, i))
    decreases |elf| - i
  {
    hide LinkedFrom, InPass, SectionIds, Section.Allocated, LinkIds;
    LinkIdsStep(elf, i, id);
    if i < |elf| {
      CountSection(elf, i, 0, id);
      CountLinks(elf, i + 1, id);
      LinkedFromStep(elf, id, i);
    } else {
      NoneLinkedFrom(elf, id);
    }
  }

  lemma LinkIdsStep(elf: Elf, i: nat, id: Id)
    requires i <= |elf| < 0x1_0000_0000
    ensures multiset(LinkIds(elf, i))[id] ==
            if i == |elf| then 0
            else
              (if elf[i].Allocated() then multiset(SectionIds(elf, i, 0))[id] else 0)
              + multiset(LinkIds(elf, i + 1))[id]
  {
    hide SectionIds, Section.Allocated;
    if i < |elf| {
      var first := if elf[i].Allocated() then SectionIds(elf, i, 0) else [];
      assert LinkIds(elf, i) == first + LinkIds(elf, i + 1);
    }
  }

  lemma NoneLinkedFrom(elf: Elf, id: Id)
    ensures !LinkedFrom(elf, id, |elf|)
  {
  }

  lemma {:induction false} CountImports(elf: Elf, k: nat, id: Id)
    requires k <= |elf|
    ensures multiset(ImportIds(elf, k))[id] ==
            One(ValidId(elf, id) && k <= id.section && elf[id.section].HasRelocations()
                && IsImport(elf, elf[id.section], id.entry))
    decreases |elf| - k
  {
    hide IsImport, ImportEntryIds, Section.HasRelocations;
    if k < |elf| {
      CountEntries(elf, k, 0, id);
      CountImports(elf, k + 1, id);
    }
  }

  /** Every entry of a relocation section is in exactly one of the two lists, once, and nothing else is. */
  lemma ListedExactlyOnce(elf: Elf, id: Id)
    requires |elf| < 0x1_0000_0000 && RelocationsOnly(elf)
    ensures multiset(LinkIds(elf, 0))[id] + multiset(ImportIds(elf, 0))[id] == One(IsRelocation(elf, id))
  {
    hide IsImport, LinkIds, ImportIds, Section.HasRelocations, Section.Allocated;
    CountLinks(elf, 0, id);
    CountImports(elf, 0, id);
  }

  // ----- what the import pass returns -----

  /** The imports of section k from entry j on, up to the first that is ill-named. */
  function KeptEntryIds(elf: Elf, k: nat, j: nat): (r: seq<Id>)
    requires k < |elf| && j <= |elf[k].entries|
    ensures forall x :: 0 <= x < |r| ==>
              ValidId(elf, r[x]) && r[x].section == k && IsImport(elf, elf[k], r[x].entry)
                  && RplOf(elf, elf[k], r[x].entry).Some?
    decreases |elf[k].entries| - j
  {
    if j == |elf[k].entries| then []
    else if !IsImport(elf, elf[k], j) then KeptEntryIds(elf, k, j + 1)
    else if RplOf(elf, elf[k], j).None? then []
    else [Id(k, j)] + KeptEntryIds(elf, k, j + 1)
  }

  /** What the import pass keeps, from section k on. */
  function KeptIds(elf: Elf, k: nat): (r: seq<Id>)
    requires k <= |elf|
    ensures forall x :: 0 <= x < |r| ==>
              && ValidId(elf, r[x]) && elf[r[x].section].HasRelocations()
                  && IsImport(elf, elf[r[x].section], r[x].entry)
              && RplOf(elf, elf[r[x].section], r[x].entry).Some?
    decreases |elf| - k
  {
    if k == |elf| then []
    else (if elf[k].HasRelocations() then KeptEntryIds(elf, k, 0) else []) + KeptIds(elf, k + 1)
  }

  /** Every import section is named .fimport_x or .dimport_x. */
  ghost predicate WellNamed(elf: Elf) { WellNamedFrom(elf, 0) }

  ghost predicate WellNamedFrom(elf: Elf, k: nat) {
    forall id: Id :: k <= id.section && IsRelocation(elf, id) && IsImport(elf, elf[id.section], id.entry) ==>
      RplOf(elf, elf[id.section], id.entry).Some?
  }

  ghost predicate SectionNamed(elf: Elf, k: nat, j: nat)
    requires k < |elf|
  {
    forall x :: j <= x < |elf[k].entries| && IsImport(elf, elf[k], x) ==> RplOf(elf, elf[k], x).Some?
  }

  lemma {:induction false} EntriesKept(elf: Elf, k: nat, j: nat)
    requires k < |elf| && j <= |elf[k].entries|
    ensures |KeptEntryIds(elf, k, j)| <= |ImportEntryIds(elf, k, j)|
    ensures |KeptEntryIds(elf, k, j)| == |ImportEntryIds(elf, k, j)| <==> SectionNamed(elf, k, j)
    ensures SectionNamed(elf, k, j) ==> KeptEntryIds(elf, k, j) == ImportEntryIds(elf, k, j)
    decreases |elf[k].entries| - j
  {
    hide IsImport, RplOf;
    if j < |elf[k].entries| {
      EntriesKept(elf, k, j + 1);
      assert SectionNamed(elf, k, j)
          <==> SectionNamed(elf, k, j + 1) && (IsImport(elf, elf[k], j) ==> RplOf(elf, elf[k], j).Some?);
    }
  }

  lemma WellNamedSteps(elf: Elf, k: nat)
    requires k < |elf|
    ensures WellNamedFrom(elf, k)
            <==> WellNamedFrom(elf, k + 1) && (elf[k].HasRelocations() ==> SectionNamed(elf, k, 0))
  {
    hide IsImport, RplOf, Section.HasRelocations;
    if WellNamedFrom(elf, k) && elf[k].HasRelocations() {
      forall x | 0 <= x < |elf[k].entries| && IsImport(elf, elf[k], x) ensures RplOf(elf, elf[k], x).Some? {
        assert IsRelocation(elf, Id(k, x));
      }
    }
  }

  /** All imports are kept exactly when they are all well-named. */
  lemma {:induction false} AllKeptExactly(elf: Elf, k: nat)
    requires k <= |elf|
    ensures |KeptIds(elf, k)| <= |ImportIds(elf, k)|
    ensures |KeptIds(elf, k)| == |ImportIds(elf, k)| <==> WellNamedFrom(elf, k)
    ensures WellNamedFrom(elf, k) ==> KeptIds(elf, k) == ImportIds(elf, k)
    decreases |elf| - k
  {
    hide IsImport, RplOf, Section.HasRelocations, WellNamedFrom, SectionNamed, KeptEntryIds, ImportEntryIds;
    if k < |elf| {
      EntriesKept(elf, k, 0);
      WellNamedSteps(elf, k);
      AllKeptExactly(elf, k + 1);
    } else {
      assert WellNamedFrom(elf, k) by { NoneLeft(elf); }
    }
  }

  lemma NoneLeft(elf: Elf)
    ensures WellNamedFrom(elf, |elf|)
  {
  }

  lemma {:induction false} KeptEntriesListed(elf: Elf, k: nat, j: nat, id: Id)
    requires k < |elf| && j <= |elf[k].entries|
    ensures multiset(KeptEntryIds(elf, k, j))[id] <= multiset(ImportEntryIds(elf, k, j))[id]
    decreases |elf[k].entries| - j
  {
    hide IsImport, RplOf;
    if j < |elf[k].entries| { KeptEntriesListed(elf, k, j + 1, id); }
  }

  lemma {:induction false} KeptAreListed(elf: Elf, k: nat, id: Id)
    requires k <= |elf|
    ensures multiset(KeptIds(elf, k))[id] <= multiset(ImportIds(elf, k))[id]
    decreases |elf| - k
  {
    hide IsImport, RplOf, Section.HasRelocations, KeptEntryIds, ImportEntryIds, KeptIds, ImportIds;
    if k < |elf| {
      var kept := if elf[k].HasRelocations() then KeptEntryIds(elf, k, 0) else [];
      var listed := if elf[k].HasRelocations() then ImportEntryIds(elf, k, 0) else [];
      ImportIdsStep(elf, k, kept, listed);
      KeptEntriesListed(elf, k, 0, id);
      KeptAreListed(elf, k + 1, id);
    } else {
      NoIdsLeft(elf);
    }
  }

  lemma ImportIdsStep(elf: Elf, k: nat, kept: seq<Id>, listed: seq<Id>)
    requires k < |elf|
    requires kept == if elf[k].HasRelocations() then KeptEntryIds(elf, k, 0) else []
    requires listed == if elf[k].HasRelocations() then ImportEntryIds(elf, k, 0) else []
    ensures KeptIds(elf, k) == kept + KeptIds(elf, k + 1) && ImportIds(elf, k) == listed + ImportIds(elf, k + 1)
  {
    hide IsImport, RplOf, Section.HasRelocations, KeptEntryIds, ImportEntryIds;
  }

  lemma NoIdsLeft(elf: Elf)
    ensures KeptIds(elf, |elf|) == [] && ImportIds(elf, |elf|) == []
  {
  }

  /** The entries that the link pass works through and those that the import pass returns are different
      entries of relocation sections; together they are all of them exactly when the imports are
      well-named. */
  lemma HandledExactlyOnce(elf: Elf)
    requires |elf| < 0x1_0000_0000 && RelocationsOnly(elf)
    ensures forall id :: multiset(LinkIds(elf, 0) + KeptIds(elf, 0))[id] <= One(IsRelocation(elf, id))
    ensures (forall id :: multiset(LinkIds(elf, 0) + KeptIds(elf, 0))[id] == One(IsRelocation(elf, id)))
            <==> WellNamed(elf)
  {
    hide IsImport, RplOf, LinkIds, ImportIds, KeptIds, Section.HasRelocations, Section.Allocated, RelocationsOnly;
    forall id ensures multiset(LinkIds(elf, 0) + KeptIds(elf, 0))[id]
                      == multiset(LinkIds(elf, 0))[id] + multiset(KeptIds(elf, 0))[id] <= One(IsRelocation(elf, id))
    {
      ListedExactlyOnce(elf, id);
      KeptAreListed(elf, 0, id);
    }
    if WellNamed(elf) {
      AllKeptExactly(elf, 0);
      forall id ensures multiset(LinkIds(elf, 0) + KeptIds(elf, 0))[id] == One(IsRelocation(elf, id)) {
        ListedExactlyOnce(elf, id);
      }
    } else {
      var id: Id :| IsRelocation(elf, id) && IsImport(elf, elf[id.section], id.entry)
                    && RplOf(elf, elf[id.section], id.entry).None?;
      CountLinks(elf, 0, id);
    }
  }

  /** A successful import pass returns exactly the entries of KeptIds, in order. */
  lemma {:induction false} ImportsFollowIds(elf: Elf, dests: seq<word>, k: nat)
    requires WellFormed(elf) && k <= |elf| == |dests| && ModuleImports(elf, dests, k).Some?
    ensures var r, ids := ModuleImports(elf, dests, k).value, KeptIds(elf, k);
            |r| == |ids| &&
            forall x :: 0 <= x < |r| ==>
              elf[ids[x].section].info < |dests| && r[x] == Deferred(elf, dests, elf[ids[x].section], ids[x].entry)
    decreases |elf| - k
  {
    hide IsImport, RplOf, SectionImports, KeptEntryIds, Deferred, Section.HasRelocations;
    if k < |elf| {
      ImportsFollowIds(elf, dests, k + 1);
      if elf[k].HasRelocations() { SectionFollowsIds(elf, dests, k, 0); }
    }
  }

  lemma {:induction false} SectionFollowsIds(elf: Elf, dests: seq<word>, k: nat, j: nat)
    requires k < |elf| == |dests| && elf[k].HasRelocations() && elf[k].info < |dests|
    requires j <= |elf[k].entries| && SectionImports(elf, dests, elf[k], j).Some?
    ensures var r, ids := SectionImports(elf, dests, elf[k], j).value, KeptEntryIds(elf, k, j);
            |r| == |ids| &&
            forall x :: 0 <= x < |r| ==> r[x] == Deferred(elf, dests, elf[k], ids[x].entry)
    decreases |elf[k].entries| - j
  {
    hide RplOf, Deferred, Section.HasRelocations, IsImport;
    if j < |elf[k].entries| && !(IsImport(elf, elf[k], j) && RplOf(elf, elf[k], j).None?) {
      SectionFollowsIds(elf, dests, k, j + 1);
    }
  }

  /** The import pass returns as many relocations as there are imports exactly when all import sections are
      well-named; it drops some without failing otherwise. */
  lemma ImportsComplete(elf: Elf, dests: seq<word>)
    requires WellFormed(elf) && |elf| == |dests| && ModuleImports(elf, dests, 0).Some?
    ensures var r := ModuleImports(elf, dests, 0).value;
            |r| <= |ImportIds(elf, 0)| && (|r| == |ImportIds(elf, 0)| <==> WellNamed(elf))
  {
    hide ModuleImports, KeptIds, ImportIds, WellNamedFrom, WellFormed;
    ImportsFollowIds(elf, dests, 0);
    AllKeptExactly(elf, 0);
  }

  /** Entry x of section k has no symbol, and no ill-named import of its section comes before it. */
  predicate Missing(elf: Elf, k: nat, x: nat) {
    && k < |elf| && elf[k].HasRelocations() && x < |elf[k].entries|
    && GetSymbol(elf, elf[k], elf[k].entries[x].symbol).None?
    && forall y :: 0 <= y < x && IsImport(elf, elf[k], y) ==> RplOf(elf, elf[k], y).Some?
  }

  lemma {:induction false} SectionHaltsExactly(elf: Elf, dests: seq<word>, k: nat, j: nat)
    requires k < |elf| && elf[k].HasRelocations() && j <= |elf[k].entries| && elf[k].info < |dests|
    requires forall y :: 0 <= y < j ==> GetSymbol(elf, elf[k], elf[k].entries[y].symbol).Some?
    requires forall y :: 0 <= y < j && IsImport(elf, elf[k], y) ==> RplOf(elf, elf[k], y).Some?
    ensures SectionImports(elf, dests, elf[k], j).None? <==> exists x: nat :: Missing(elf, k, x)
    decreases |elf[k].entries| - j
  {
    hide IsImport, RplOf, GetSymbol, Deferred, Section.HasRelocations;
    if j < |elf[k].entries| {
      if GetSymbol(elf, elf[k], elf[k].entries[j].symbol).None? {
        assert Missing(elf, k, j);
      } else if IsImport(elf, elf[k], j) && RplOf(elf, elf[k], j).None? {
        forall x: nat ensures !Missing(elf, k, x) {}
      } else {
        SectionHaltsExactly(elf, dests, k, j + 1);
      }
    }
  }

  /** The import pass halts exactly when an entry without a symbol comes before the first ill-named import of
      its section. */
  lemma {:induction false} ImportsHaltExactly(elf: Elf, dests: seq<word>, k: nat)
    requires WellFormed(elf) && k <= |elf| == |dests|
    ensures ModuleImports(elf, dests, k).None? <==> exists i: nat, x: nat :: k <= i && Missing(elf, i, x)
    decreases |elf| - k
  {
    hide IsImport, RplOf, GetSymbol, Section.HasRelocations, SectionImports;
    if k < |elf| {
      ImportsHaltExactly(elf, dests, k + 1);
      if elf[k].HasRelocations() { SectionHaltsExactly(elf, dests, k, 0); }
    }
  }
}

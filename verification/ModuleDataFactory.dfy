/** Linking a loaded module and collecting its imports: linkSection, getImportRelocationData and the
    link pass of ModuleDataFactory::load. */
module ModuleDataFactory {
  import opened Bits
  import opened Memory
  import opened ElfUtils
  import opened ElfFile
  import opened Layout

  // ----- one relocation entry -----

  /** What the link pass does with an entry: apply it, give up, or halt. */
  datatype Act = Apply(link: Link) | Refuse | Halt

  /** An entry is left for the import phase when its symbol is an import. */
  predicate IsImport(elf: Elf, s: Section, j: nat)
    requires j < |s.entries|
  {
    var sym := GetSymbol(elf, s, s.entries[j].symbol);
    sym.Some? && sym.value.value >= 0xC0000000
  }

  function EntryAct(elf: Elf, s: Section, j: nat, destination: word, baseText: word, baseData: word): Act
    requires j < |s.entries| && !IsImport(elf, s, j)
  {
    var e := s.entries[j];
    match GetSymbol(elf, s, e.symbol)
    case None => Halt
    case Some(sym) =>
      match Resolve(sym.value, baseText, baseData)
      case Unhandled => Refuse
      case Import => Refuse
      case Resolved(address) =>
        if sym.sectionIndex != SHN_ABS && sym.sectionIndex > SHN_LORESERVE then Refuse
        else Apply(Link(e.kind, e.offset, e.addend, destination, address))
  }

  /** Acts in a row, until one does not succeed. */
  function RunActs(m: Mem, t: Table, acts: seq<Act>): (Outcome, Mem)
    requires t.InMemory()
    decreases |acts|
  {
    if acts == [] then (Success, m)
    else match acts[0]
      case Refuse => (Failure, m)
      case Halt => (Halted, m)
      case Apply(l) =>
        var r := LinkOne(m, t, l, RELOC_TRAMP_FIXED);
        if r.ok then RunActs(r.mem, t, acts[1..]) else (Failure, r.mem)
  }

  // ----- the order of the link pass -----

  /** Entry `entry` of section `section`. */
  datatype Id = Id(section: nat, entry: nat)

  predicate ValidId(elf: Elf, id: Id) {
    id.section < |elf| && id.entry < |elf[id.section].entries|
  }

  /** The entries of section k from j on that are not imports. */
  function EntryIds(elf: Elf, k: nat, j: nat): (r: seq<Id>)
    requires k < |elf| && j <= |elf[k].entries|
    ensures forall x :: 0 <= x < |r| ==> ValidId(elf, r[x]) && r[x].section == k && !IsImport(elf, elf[k], r[x].entry)
    decreases |elf[k].entries| - j
  {
    if j == |elf[k].entries| then []
    else if IsImport(elf, elf[k], j) then EntryIds(elf, k, j + 1)
    else [Id(k, j)] + EntryIds(elf, k, j + 1)
  }

  /** linkSection for section i: every section from k on whose sh_info is i. */
  function SectionIds(elf: Elf, i: word, k: nat): (r: seq<Id>)
    requires k <= |elf|
    ensures forall x :: 0 <= x < |r| ==>
              ValidId(elf, r[x]) && elf[r[x].section].info == i && !IsImport(elf, elf[r[x].section], r[x].entry)
    decreases |elf| - k
  {
    if k == |elf| then []
    else (if elf[k].info == i then EntryIds(elf, k, 0) else []) + SectionIds(elf, i, k + 1)
  }

  function ActsOf(elf: Elf, ids: seq<Id>, destination: word, baseText: word, baseData: word): (r: seq<Act>)
    requires forall x :: 0 <= x < |ids| ==> ValidId(elf, ids[x]) && !IsImport(elf, elf[ids[x].section], ids[x].entry)
    ensures |r| == |ids|
  {
    seq(|ids|, (x: nat) requires x < |ids| && ValidId(elf, ids[x])
        && !IsImport(elf, elf[ids[x].section], ids[x].entry) =>
      EntryAct(elf, elf[ids[x].section], ids[x].entry, destination, baseText, baseData))
  }

  function SectionActs(elf: Elf, i: word, k: nat, destination: word, baseText: word, baseData: word): seq<Act>
    requires k <= |elf|
  {
    ActsOf(elf, SectionIds(elf, i, k), destination, baseText, baseData)
  }

  /** The whole link pass from section i on. */
  function ModuleActs(elf: Elf, dests: seq<word>, i: nat, baseText: word, baseData: word): seq<Act>
    requires i <= |elf| == |dests| && |elf| < 0x1_0000_0000
    decreases |elf| - i
  {
    if i == |elf| then []
    else (if elf[i].Allocated() then SectionActs(elf, i, 0, dests[i], baseText, baseData) else [])
         + ModuleActs(elf, dests, i + 1, baseText, baseData)
  }

  // ----- the link pass as it patches memory -----

  lemma {:induction false} RunAppend(m: Mem, t: Table, xs: seq<Act>, ys: seq<Act>)
    requires t.InMemory()
    ensures var r := RunActs(m, t, xs);
            RunActs(m, t, xs + ys) == if r.0 == Success then RunActs(r.1, t, ys) else r
    decreases |xs|
  {
    hide LinkOne;
    if xs == [] {
      assert xs + ys == ys;
    } else {
      assert (xs + ys)[0] == xs[0] && (xs + ys)[1..] == xs[1..] + ys;
      if xs[0].Apply? {
        RunAppend(LinkOne(m, t, xs[0].link, RELOC_TRAMP_FIXED).mem, t, xs[1..], ys);
      }
    }
  }

  lemma ActsAppend(elf: Elf, xs: seq<Id>, ys: seq<Id>, destination: word, baseText: word, baseData: word)
    requires forall x :: 0 <= x < |xs| ==> ValidId(elf, xs[x]) && !IsImport(elf, elf[xs[x].section], xs[x].entry)
    requires forall x :: 0 <= x < |ys| ==> ValidId(elf, ys[x]) && !IsImport(elf, elf[ys[x].section], ys[x].entry)
    ensures ActsOf(elf, xs + ys, destination, baseText, baseData) ==
            ActsOf(elf, xs, destination, baseText, baseData) + ActsOf(elf, ys, destination, baseText, baseData)
  {
  }

  /** The remaining entries of section k. */
  function EntryActs(elf: Elf, k: nat, j: nat, destination: word, baseText: word, baseData: word): seq<Act>
    requires k < |elf| && j <= |elf[k].entries|
  {
    ActsOf(elf, EntryIds(elf, k, j), destination, baseText, baseData)
  }

  method LinkEntries(mem: array<byte>, elf: Elf, k: nat, destination: word, baseText: word, baseData: word, t: Table)
    returns (outcome: Outcome)
    requires mem.Length == 0x1_0000_0000 && t.InMemory() && k < |elf|
    modifies mem
    ensures (outcome, mem[..]) == RunActs(old(mem[..]), t, EntryActs(elf, k, 0, destination, baseText, baseData))
  {
    hide EntryAct, LinkOne;
    ghost var all := RunActs(mem[..], t, EntryActs(elf, k, 0, destination, baseText, baseData));
    for j := 0 to |elf[k].entries|
      invariant RunActs(mem[..], t, EntryActs(elf, k, j, destination, baseText, baseData)) == all
    {
      if IsImport(elf, elf[k], j) {
        continue;
      }
      ghost var rest := EntryActs(elf, k, j + 1, destination, baseText, baseData);
      ActsAppend(elf, [Id(k, j)], EntryIds(elf, k, j + 1), destination, baseText, baseData);
      var act := EntryAct(elf, elf[k], j, destination, baseText, baseData);
      assert EntryActs(elf, k, j, destination, baseText, baseData) == [act] + rest;
      match act {
        case Halt => return Halted;
        case Refuse => return Failure;
        case Apply(l) =>
          var ok := ElfLinkOne(mem, t, l, RELOC_TYPE_FIXED);
          assert ([act] + rest)[1..] == rest;
          if !ok { return Failure; }
      }
    }
    outcome := Success;
  }

  method LinkSection(mem: array<byte>, elf: Elf, sectionIndex: word, destination: word,
                     baseText: word, baseData: word, t: Table)
    returns (outcome: Outcome)
    requires mem.Length == 0x1_0000_0000 && t.InMemory()
    modifies mem
    ensures (outcome, mem[..]) ==
            RunActs(old(mem[..]), t, SectionActs(elf, sectionIndex, 0, destination, baseText, baseData))
  {
    hide EntryAct, LinkOne, EntryIds, RunActs, ActsOf;
    ghost var all := RunActs(mem[..], t, SectionActs(elf, sectionIndex, 0, destination, baseText, baseData));
    for k := 0 to |elf|
      invariant RunActs(mem[..], t, SectionActs(elf, sectionIndex, k, destination, baseText, baseData)) == all
    {
      ghost var rest := SectionActs(elf, sectionIndex, k + 1, destination, baseText, baseData);
      if elf[k].info == sectionIndex {
        ActsAppend(elf, EntryIds(elf, k, 0), SectionIds(elf, sectionIndex, k + 1), destination, baseText, baseData);
        RunAppend(mem[..], t, EntryActs(elf, k, 0, destination, baseText, baseData), rest);
        outcome := LinkEntries(mem, elf, k, destination, baseText, baseData, t);
        if outcome != Success { return; }
      } else {
        assert [] + SectionIds(elf, sectionIndex, k + 1) == SectionIds(elf, sectionIndex, k + 1);
      }
    }
    NoActs(mem[..], elf, t, destination, baseText, baseData);
    outcome := Success;
  }

  lemma NoActs(m: Mem, elf: Elf, t: Table, destination: word, baseText: word, baseData: word)
    requires t.InMemory()
    ensures RunActs(m, t, ActsOf(elf, [], destination, baseText, baseData)) == (Success, m)
  {
  }

  method LinkModule(mem: array<byte>, elf: Elf, dests: seq<word>, baseText: word, baseData: word, t: Table)
    returns (outcome: Outcome)
    requires mem.Length == 0x1_0000_0000 && t.InMemory() && |elf| == |dests| && |elf| < 0x1_0000_0000
    modifies mem
    ensures (outcome, mem[..]) == RunActs(old(mem[..]), t, ModuleActs(elf, dests, 0, baseText, baseData))
  {
    hide RunActs, SectionActs;
    ghost var all := RunActs(mem[..], t, ModuleActs(elf, dests, 0, baseText, baseData));
    for i := 0 to |elf|
      invariant RunActs(mem[..], t, ModuleActs(elf, dests, i, baseText, baseData)) == all
    {
      ghost var rest := ModuleActs(elf, dests, i + 1, baseText, baseData);
      if elf[i].Allocated() {
        RunAppend(mem[..], t, SectionActs(elf, i, 0, dests[i], baseText, baseData), rest);
        outcome := LinkSection(mem, elf, i, dests[i], baseText, baseData, t);
        if outcome != Success { return; }
      } else {
        assert [] + rest == rest;
      }
    }
    EmptyRun(mem[..], t);
    outcome := Success;
  }

  lemma EmptyRun(m: Mem, t: Table)
    requires t.InMemory()
    ensures RunActs(m, t, []) == (Success, m)
  {
  }
}

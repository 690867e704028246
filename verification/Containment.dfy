/** What the loader may write: the window of the payload and the trampoline table, whatever becomes of the
    load. */
module Containment {
  import opened Bits
  import opened Memory
  import opened ElfUtils
  import opened Relocation
  import opened LinkRun
  import opened ElfFile
  import opened Layout
  import opened LayoutTheorems
  import opened ModuleDataFactory
  import opened Imports
  import opened Loader
  import opened PayloadRun

  // ----- the layout pass -----

  predicate Outside(a: word, low: word, high: word) { a < low || high <= a }

  /** One section that may be copied, or refused, or halted at. */
  lemma PlaceOneKeepsOutside(elf: Elf, limit: word, i: nat, p: Placement, m: Mem, a: word)
    requires WellFormed(elf) && i < |elf| == |p.dests| && Room(elf) <= limit < 0x2800_0000
    requires var target := TargetAddress(limit, Room(elf));
             p.base == BaseOf(elf, target, i) && Outside(a, target, limit)
    ensures PlaceOne(elf[i], i, TargetAddress(limit, Room(elf)), limit, p, m).2[a] == m[a]
  {
    hide Room, And, TargetAddress, BaseOf, Section.Placed, Section.IsText, Section.IsData, PutBytes, Section.Contents;
    var s, target := elf[i], TargetAddress(limit, Room(elf));
    if PlaceOne(s, i, target, limit, p, m).0 == Success && s.Placed() {
      GuardsContain(elf, limit, i);
    }
  }

  /** Whether the layout succeeds, fails or halts, nothing outside the window is written. */
  lemma {:induction false} PlaceKeepsOutside(elf: Elf, limit: word, i: nat, p: Placement, m: Mem, a: word)
    requires WellFormed(elf) && i <= |elf| == |p.dests| && Room(elf) <= limit < 0x2800_0000
    requires var target := TargetAddress(limit, Room(elf));
             p.base == BaseOf(elf, target, i) && Outside(a, target, limit)
    ensures Place(elf, i, TargetAddress(limit, Room(elf)), limit, p, m).2[a] == m[a]
    decreases |elf| - i
  {
    hide Room, And, TargetAddress, BaseOf, PutBytes, Section.Contents, Section.Placed, Section.IsText, Section.IsData;
    if i < |elf| {
      var target := TargetAddress(limit, Room(elf));
      var r := PlaceOne(elf[i], i, target, limit, p, m);
      PlaceOneKeepsOutside(elf, limit, i, p, m, a);
      if r.0 == Success {
        NextBase(elf, target, i);
        PlaceKeepsOutside(elf, limit, i + 1, r.1, r.2, a);
      }
    }
  }

  // ----- the link pass and the import phase -----

  /** Byte a is neither in the field of l nor in the table. */
  predicate Untouched(t: Table, l: Link, a: word) {
    Disjoint(l.Target(), l.Width(), a, 1) && !t.Covers(a)
  }

  lemma LinkKeeps(m: Mem, t: Table, l: Link, mark: word, a: word)
    requires t.InMemory() && Untouched(t, l, a)
    ensures LinkOne(m, t, l, mark).mem[a] == m[a]
  {
    hide LinkOne, Relocate;
    LinkOneIsRelocate(m, t, l, mark);
    assert Disjoint(a, 1, t.base, 20 * t.length);
    RelocateRange(m, t, l, mark, a, 1);
    assert GetBytes(Relocate(m, t, l, mark).mem, a, 1)[0] == GetBytes(m, a, 1)[0];
  }

  lemma {:induction false} ActsKeep(m: Mem, t: Table, acts: seq<Act>, a: word)
    requires t.InMemory() && forall x :: 0 <= x < |acts| && acts[x].Apply? ==> Untouched(t, acts[x].link, a)
    ensures RunActs(m, t, acts).1[a] == m[a]
    decreases |acts|
  {
    hide LinkOne, Untouched;
    if acts != [] && acts[0].Apply? {
      LinkKeeps(m, t, acts[0].link, RELOC_TRAMP_FIXED, a);
      ActsKeep(LinkOne(m, t, acts[0].link, RELOC_TRAMP_FIXED).mem, t, acts[1..], a);
    }
  }

  lemma {:induction false} ImportsKeep(m: Mem, t: Table, relocData: seq<RelocationData>, sys: System, a: word)
    requires t.InMemory() && forall x :: 0 <= x < |relocData| ==> Untouched(t, ImportLink(relocData[x], 0), a)
    ensures RunImports(m, t, relocData, sys).mem[a] == m[a]
    decreases |relocData|
  {
    hide LinkOne, ImportAddress;
    if relocData != [] && ImportAddress(sys, relocData[0]).Some? {
      var l := ImportLink(relocData[0], ImportAddress(sys, relocData[0]).value);
      assert Untouched(t, l, a) by { assert Untouched(t, ImportLink(relocData[0], 0), a); }
      LinkKeeps(m, t, l, RELOC_TRAMP_IMPORT_DONE, a);
      ImportsKeep(LinkOne(m, t, l, RELOC_TRAMP_IMPORT_DONE).mem, t, relocData[1..], sys, a);
    }
  }

  // ----- the fields of a file -----

  /** An entry that one of the passes may apply. */
  ghost predicate MayPatch(elf: Elf, id: Id) {
    && ValidId(elf, id)
    && (elf[id.section].HasRelocations() || (Patched(elf, id) < |elf| && elf[Patched(elf, id)].Allocated()))
  }

  /** Where entry id is applied: r_offset is added to the section's base, whether or not it names a byte of
      the section. */
  function PlaceOf(elf: Elf, id: Id): word
    requires ValidId(elf, id) && Patched(elf, id) < |elf|
  {
    var k, offset := Patched(elf, id), EntryOf(elf, id).offset;
    if elf[k].Placed() then LoadedAt(elf, PayloadStart(elf), k, offset) else offset
  }

  /** Byte a is not in the field of entry id. */
  predicate FieldMisses(elf: Elf, id: Id, a: word)
    requires ValidId(elf, id) && Patched(elf, id) < |elf|
  {
    Disjoint(PlaceOf(elf, id), FieldWidth(EntryOf(elf, id)), a, 1)
  }

  ghost predicate FieldsMiss(elf: Elf, a: word) {
    forall id :: MayPatch(elf, id) && Patched(elf, id) < |elf| ==> FieldMisses(elf, id, a)
  }

  lemma FieldUntouched(elf: Elf, m: Mem, t: Table, op: Op, id: Id, a: word)
    requires WellFormed(elf) && ValidId(elf, id) && Patched(elf, id) < |elf| && FieldMisses(elf, id, a)
    requires Succeeds(elf, PayloadStart(elf), PAYLOAD_END, m)
    requires Stems(elf, Final(elf, PayloadStart(elf), PAYLOAD_END, m).dests, op, id) && !t.Covers(a)
    ensures Untouched(t, op.link, a)
  {
    hide Room, And, PayloadStart, Succeeds, Final, LoadAddress, LoadedAt, BaseOf, WellFormed, Section.Placed;
    var target, k := PayloadStart(elf), Patched(elf, id);
    LayoutFormula(elf, target, PAYLOAD_END, m);
    PlaceIsLoadedAt(elf, target, k, EntryOf(elf, id).offset);
  }

  /** All fields lie within the sections that they patch. */
  ghost predicate FieldsInside(elf: Elf) {
    forall id :: MayPatch(elf, id) ==> Within(elf, id)
  }

  lemma CleanFieldsInside(elf: Elf)
    requires Clean(elf)
    ensures FieldsInside(elf)
  {
    hide WellFormed, WellNamed, TextFirst, RangesApart, Within, FieldsApart, Section.HasRelocations,
         Section.Allocated;
    forall id | MayPatch(elf, id) ensures Within(elf, id) {
      assert IsRelocation(elf, id);
    }
  }

  /** Then no field reaches outside the window. */
  lemma InsideMisses(elf: Elf, m: Mem, a: word)
    requires WellFormed(elf) && Room(elf) <= PAYLOAD_END && FieldsInside(elf)
    requires PayloadStart(elf) == TargetAddress(PAYLOAD_END, Room(elf))
    requires Succeeds(elf, PayloadStart(elf), PAYLOAD_END, m) && Outside(a, PayloadStart(elf), PAYLOAD_END)
    ensures FieldsMiss(elf, a)
  {
    hide Room, And, PayloadStart, TargetAddress, Succeeds, Final, LoadAddress, Within, WellFormed, Section.Placed,
         Section.Allocated, Section.HasRelocations;
    forall id | MayPatch(elf, id) && Patched(elf, id) < |elf| ensures FieldMisses(elf, id, a) {
      FieldInsideMisses(elf, m, id, a);
    }
  }

  lemma FieldInsideMisses(elf: Elf, m: Mem, id: Id, a: word)
    requires WellFormed(elf) && Room(elf) <= PAYLOAD_END && ValidId(elf, id) && Within(elf, id)
    requires PayloadStart(elf) == TargetAddress(PAYLOAD_END, Room(elf))
    requires Succeeds(elf, PayloadStart(elf), PAYLOAD_END, m) && Outside(a, PayloadStart(elf), PAYLOAD_END)
    ensures FieldMisses(elf, id, a)
  {
    hide Room, And, PayloadStart, TargetAddress, Succeeds, Final, LoadAddress, WellFormed, Section.Placed, BaseOf;
    var e, k, target := EntryOf(elf, id), Patched(elf, id), PayloadStart(elf);
    var dests := Final(elf, target, PAYLOAD_END, m).dests;
    var op := Op(Link(e.kind, e.offset, e.addend, dests[k], 0), RELOC_TRAMP_FIXED);
    if FieldWidth(e) > 0 {
      FieldPlace(elf, m, op, id);
      LayoutFormula(elf, target, PAYLOAD_END, m);
      PlaceIsLoadedAt(elf, target, k, e.offset);
    }
  }

  lemma LinkedIsPatch(elf: Elf, x: nat)
    requires |elf| < 0x1_0000_0000 && x < |LinkIds(elf, 0)|
    ensures MayPatch(elf, LinkIds(elf, 0)[x])
  {
    hide LinkIds, Section.Allocated, IsImport;
    var id := LinkIds(elf, 0)[x];
    CountLinks(elf, 0, id);
    assert multiset(LinkIds(elf, 0))[id] > 0;
  }

  lemma ActsUntouched(elf: Elf, m: Mem, t: Table, p: Placement, acts: seq<Act>, a: word)
    requires WellFormed(elf) && FieldsMiss(elf, a) && !t.Covers(a) && |elf| < 0x1_0000_0000
    requires Succeeds(elf, PayloadStart(elf), PAYLOAD_END, m)
    requires p == Final(elf, PayloadStart(elf), PAYLOAD_END, m)
    requires acts == ModuleActs(elf, p.dests, 0, PayloadStart(elf), p.base)
    ensures forall x :: 0 <= x < |acts| && acts[x].Apply? ==> Untouched(t, acts[x].link, a)
  {
    hide Room, And, TargetAddress, Succeeds, Final, IsImport, EntryAct, LinkIds, ModuleActs, Untouched, FieldMisses,
         MayPatch, Linked, Stems, WellFormed;
    var ids := LinkIds(elf, 0);
    ActsFollowIds(elf, p.dests, 0, PayloadStart(elf), p.base);
    forall x | 0 <= x < |acts| && acts[x].Apply? ensures Untouched(t, acts[x].link, a) {
      LinkedIsPatch(elf, x);
      ActStems(elf, p, ids[x], acts[x]);
      FieldUntouched(elf, m, t, Op(acts[x].link, RELOC_TRAMP_FIXED), ids[x], a);
    }
  }

  lemma DeferredStems(elf: Elf, dests: seq<word>, id: Id)
    requires ValidId(elf, id) && IsImport(elf, elf[id.section], id.entry) && Patched(elf, id) < |dests|
    requires RplOf(elf, elf[id.section], id.entry).Some?
    ensures Stems(elf, dests, Op(ImportLink(Deferred(elf, dests, elf[id.section], id.entry), 0), 0), id)
  {
    hide RplOf;
    DeferredTarget(elf, dests, elf[id.section], id.entry);
  }

  lemma ImportsUntouched(elf: Elf, m: Mem, t: Table, a: word)
    requires WellFormed(elf) && FieldsMiss(elf, a) && !t.Covers(a)
    requires Succeeds(elf, PayloadStart(elf), PAYLOAD_END, m)
    requires ModuleImports(elf, Final(elf, PayloadStart(elf), PAYLOAD_END, m).dests, 0).Some?
    ensures var r := ModuleImports(elf, Final(elf, PayloadStart(elf), PAYLOAD_END, m).dests, 0).value;
            forall x :: 0 <= x < |r| ==> Untouched(t, ImportLink(r[x], 0), a)
  {
    hide Room, And, TargetAddress, Succeeds, Final, IsImport, RplOf, Deferred, KeptIds, ModuleImports, Untouched,
         FieldMisses, Stems, WellFormed, Section.Allocated;
    var dests := Final(elf, PayloadStart(elf), PAYLOAD_END, m).dests;
    var r, ids := ModuleImports(elf, dests, 0).value, KeptIds(elf, 0);
    ImportsFollowIds(elf, dests, 0);
    forall x | 0 <= x < |r| ensures Untouched(t, ImportLink(r[x], 0), a) {
      assert MayPatch(elf, ids[x]);
      DeferredStems(elf, dests, ids[x]);
      FieldUntouched(elf, m, t, Op(ImportLink(r[x], 0), 0), ids[x], a);
    }
  }

  // ----- what is cleared -----

  /** The recorded .bss (or .sbss) is the load address and size of a placed section of that name. */
  ghost predicate Recorded(elf: Elf, target: word, n: nat, where: (word, word), name: string)
    requires n <= |elf|
  {
    where == (0, 0) ||
    exists k :: 0 <= k < n && elf[k].Placed() && elf[k].name == name
        && where == (LoadAddress(elf, target, k), elf[k].size)
  }

  lemma {:induction false} PlaceRecords(elf: Elf, target: word, limit: word, i: nat, p: Placement, m: Mem)
    requires WellFormed(elf) && i <= |elf| && |p.dests| == |elf| && p.base == BaseOf(elf, target, i)
    requires Place(elf, i, target, limit, p, m).0 == Success
    requires Recorded(elf, target, i, p.bss, ".bss") && Recorded(elf, target, i, p.sbss, ".sbss")
    ensures var q := Place(elf, i, target, limit, p, m).1;
            Recorded(elf, target, |elf|, q.bss, ".bss") && Recorded(elf, target, |elf|, q.sbss, ".sbss")
    decreases |elf| - i
  {
    hide BaseOf, PutBytes, Section.Contents, Section.Placed, Section.IsText, Section.IsData;
    if i < |elf| {
      var r := PlaceOne(elf[i], i, target, limit, p, m);
      NextBase(elf, target, i);
      assert Recorded(elf, target, i + 1, r.1.bss, ".bss");
      assert Recorded(elf, target, i + 1, r.1.sbss, ".sbss");
      PlaceRecords(elf, target, limit, i + 1, r.1, r.2);
    }
  }

  lemma BssRecorded(elf: Elf, target: word, limit: word, m: Mem)
    requires WellFormed(elf) && Succeeds(elf, target, limit, m)
    ensures Recorded(elf, target, |elf|, Final(elf, target, limit, m).bss, ".bss")
    ensures Recorded(elf, target, |elf|, Final(elf, target, limit, m).sbss, ".sbss")
  {
    hide Place;
    EmptyBase(elf, target);
    PlaceRecords(elf, target, limit, 0, InitialPlacement(elf, target), m);
  }

  /** What is recorded of a module without wrapping sizes lies inside the window. */
  lemma RecordedInWindow(elf: Elf, m: Mem, where: (word, word), name: string)
    requires WellFormed(elf) && Room(elf) <= PAYLOAD_END && Succeeds(elf, PayloadStart(elf), PAYLOAD_END, m)
    requires Recorded(elf, PayloadStart(elf), |elf|, where, name)
    ensures where == (0, 0) || (PayloadStart(elf) <= where.0 && where.0 + where.1 <= PAYLOAD_END)
  {
    hide Room, And, Succeeds, TargetAddress, LoadAddress, Section.Placed, WellFormed;
    var target := PayloadStart(elf);
    if where != (0, 0) {
      var k :| 0 <= k < |elf| && elf[k].Placed() && elf[k].name == name
          && where == (LoadAddress(elf, target, k), elf[k].size);
      WindowContains(elf, PAYLOAD_END, m, k);
    }
  }

  lemma ClearKeepsOutside(m: Mem, where: (word, word), low: word, a: word)
    requires where == (0, 0) || (low <= where.0 && where.0 + where.1 <= PAYLOAD_END)
    requires Outside(a, low, PAYLOAD_END)
    ensures Clear(m, where)[a] == m[a]
  {
  }

  // ----- do_start -----

  /** A load that gets past the layout has its sections in the window. */
  lemma LoadsInWindow(codeEnd: word, elf: Elf)
    requires Fits(codeEnd, elf) && W(Room(elf)) <= Sub(PAYLOAD_END, ModuleDataStart(codeEnd))
    ensures Room(elf) == W(Room(elf)) <= PAYLOAD_END && PayloadStart(elf) == TargetAddress(PAYLOAD_END, Room(elf))
    ensures ModuleTable(codeEnd).base + 20 * ModuleTable(codeEnd).length < PayloadStart(elf) <= PAYLOAD_END
  {
    hide Room, And, ModuleDataStart, TargetAddress, ModuleTable;
    WindowAboveTable(codeEnd, Room(elf));
  }

  /** Byte a is outside the window and the table, and if any relocation is applied, in no field. */
  ghost predicate Spared(m: Mem, codeEnd: word, elf: Elf, a: word)
    requires WellFormed(elf)
  {
    && Outside(a, PayloadStart(elf), PAYLOAD_END) && !ModuleTable(codeEnd).Covers(a)
    && (W(Room(elf)) <= Sub(PAYLOAD_END, ModuleDataStart(codeEnd)) && Succeeds(elf, PayloadStart(elf), PAYLOAD_END, m)
        ==> FieldsMiss(elf, a))
  }

  /** load keeps everything outside the window, the table and the fields of the file, and so does what
      follows it. */
  lemma LoadKeepsOutside(m: Mem, codeEnd: word, elf: Elf, entry: word, sys: System, a: word)
    requires WellFormed(elf) && Fits(codeEnd, elf) && Spared(m, codeEnd, elf, a)
    ensures var maximum, t := Sub(PAYLOAD_END, ModuleDataStart(codeEnd)), ModuleTable(codeEnd);
            var (loaded, m1) := LoadModule(m, elf, entry, PAYLOAD_END, maximum, t);
            && m1[a] == m[a]
            && (loaded.Loaded? ==>
                  && Succeeds(elf, PayloadStart(elf), PAYLOAD_END, m) && W(Room(elf)) <= maximum
                  && var p := Final(elf, PayloadStart(elf), PAYLOAD_END, m);
                  && loaded.data.bss == p.bss && loaded.data.sbss == p.sbss
                  && RunImports(m1, t, loaded.data.relocations, sys).mem[a] == m[a])
  {
    hide Room, And, ModuleDataStart, TargetAddress, ModuleTable, FieldsMiss, Place, RunActs, ModuleActs,
         ModuleImports, Untouched, WellFormed, RunImports;
    var maximum, t := Sub(PAYLOAD_END, ModuleDataStart(codeEnd)), ModuleTable(codeEnd);
    if W(Room(elf)) <= maximum {
      LoadsInWindow(codeEnd, elf);
      FewSections(elf);
      var target := PayloadStart(elf);
      EmptyBase(elf, target);
      PlaceKeepsOutside(elf, PAYLOAD_END, 0, InitialPlacement(elf, target), m, a);
      if Succeeds(elf, target, PAYLOAD_END, m) {
        var p, m1 := Final(elf, target, PAYLOAD_END, m), Image(elf, target, PAYLOAD_END, m);
        var acts := ModuleActs(elf, p.dests, 0, target, p.base);
        ActsUntouched(elf, m, t, p, acts, a);
        ActsKeep(m1, t, acts, a);
        if ModuleImports(elf, p.dests, 0).Some? {
          ImportsUntouched(elf, m, t, a);
          ImportsKeep(RunActs(m1, t, acts).1, t, ModuleImports(elf, p.dests, 0).value, sys, a);
        }
      }
    }
  }

  /** Whatever becomes of a start (the payload is entered, the load is given up, or the loader halts), no
      byte outside the payload's window, the trampoline table and the fields of the file's relocations has
      changed. */
  lemma StartKeeps(m: Mem, codeEnd: word, elf: Elf, entry: word, sys: System, a: word)
    requires WellFormed(elf) && Fits(codeEnd, elf) && Spared(m, codeEnd, elf, a)
    ensures Start(m, codeEnd, elf, entry, sys).1[a] == m[a]
  {
    hide Room, And, ModuleDataStart, TargetAddress, LoadModule, FieldsMiss, Final, Succeeds, WellFormed, RunImports,
         Clear, Outside;
    var maximum, t := Sub(PAYLOAD_END, ModuleDataStart(codeEnd)), ModuleTable(codeEnd);
    var (loaded, m1) := LoadModule(m, elf, entry, PAYLOAD_END, maximum, t);
    LoadKeepsOutside(m, codeEnd, elf, entry, sys, a);
    if loaded.Loaded? {
      var data, target := loaded.data, PayloadStart(elf);
      LoadsInWindow(codeEnd, elf);
      BssRecorded(elf, target, PAYLOAD_END, m);
      RecordedInWindow(elf, m, data.bss, ".bss");
      RecordedInWindow(elf, m, data.sbss, ".sbss");
      var m2 := RunImports(m1, t, data.relocations, sys).mem;
      ClearKeepsOutside(m2, data.bss, target, a);
      ClearKeepsOutside(Clear(m2, data.bss), data.sbss, target, a);
    }
  }

  /** If all fields lie within their sections, the loader stays inside the window and the table. */
  lemma StartKeepsOutside(m: Mem, codeEnd: word, elf: Elf, entry: word, sys: System, a: word)
    requires WellFormed(elf) && Fits(codeEnd, elf) && FieldsInside(elf)
    requires Outside(a, PayloadStart(elf), PAYLOAD_END) && !ModuleTable(codeEnd).Covers(a)
    ensures Start(m, codeEnd, elf, entry, sys).1[a] == m[a]
  {
    hide Room, And, ModuleDataStart, TargetAddress, ModuleTable, FieldsInside, FieldsMiss, Succeeds, WellFormed,
         Start, Outside;
    if W(Room(elf)) <= Sub(PAYLOAD_END, ModuleDataStart(codeEnd))
       && Succeeds(elf, PayloadStart(elf), PAYLOAD_END, m) {
      LoadsInWindow(codeEnd, elf);
      InsideMisses(elf, m, a);
    }
    StartKeeps(m, codeEnd, elf, entry, sys, a);
  }

  /** In particular the title id that do_start stores first is there for the payload. */
  lemma TitleIdIsKept(m: Mem, titleId: dword, codeEnd: word, elf: Elf, entry: word, sys: System)
    requires WellFormed(elf) && Fits(codeEnd, elf)
    requires forall a: word :: TITLE_ID_ADDRESS <= a < TITLE_ID_ADDRESS + 8 ==> FieldsMiss(elf, a)
    ensures var final := Start(WithTitleId(m, titleId), codeEnd, elf, entry, sys).1;
            DwordOf(GetBytes(final, TITLE_ID_ADDRESS, 8)) == titleId
  {
    hide Room, And, ModuleDataStart, Start, FieldsMiss, WellFormed, PutBytes, ModuleTable, DwordOf, DwordBytes, Sub,
         TargetAddress;
    var was := WithTitleId(m, titleId);
    var final := Start(was, codeEnd, elf, entry, sys).1;
    WindowAboveTable(codeEnd, 0);
    forall k: nat | k < 8 ensures GetBytes(final, TITLE_ID_ADDRESS, 8)[k] == GetBytes(was, TITLE_ID_ADDRESS, 8)[k] {
      assert FieldsMiss(elf, TITLE_ID_ADDRESS + k);
      StartKeeps(was, codeEnd, elf, entry, sys, TITLE_ID_ADDRESS + k);
    }
    assert GetBytes(final, TITLE_ID_ADDRESS, 8) == GetBytes(was, TITLE_ID_ADDRESS, 8);
    GetPut(m, TITLE_ID_ADDRESS, DwordBytes(titleId));
    DwordRoundTrip(titleId);
  }

  /** What do_start clears at the end lies inside the window, for every module that loads. */
  lemma ClearsInWindow(m: Mem, codeEnd: word, elf: Elf, entry: word, sys: System)
    requires WellFormed(elf) && Fits(codeEnd, elf) && Start(m, codeEnd, elf, entry, sys).0.EntryPoint?
    ensures var p := Final(elf, PayloadStart(elf), PAYLOAD_END, m);
            && (p.bss == (0, 0) || (PayloadStart(elf) <= p.bss.0 && p.bss.0 + p.bss.1 <= PAYLOAD_END))
            && (p.sbss == (0, 0) || (PayloadStart(elf) <= p.sbss.0 && p.sbss.0 + p.sbss.1 <= PAYLOAD_END))
    ensures ModuleTable(codeEnd).base + 20 * ModuleTable(codeEnd).length < PayloadStart(elf)
  {
    hide Room, And, ModuleDataStart, TargetAddress, Fits, Place, WellFormed, RunImports, RunActs, ModuleActs,
         ModuleImports, Clear, ModuleTable;
    LoadsInWindow(codeEnd, elf);
    var target := PayloadStart(elf);
    BssRecorded(elf, target, PAYLOAD_END, m);
    RecordedInWindow(elf, m, Final(elf, target, PAYLOAD_END, m).bss, ".bss");
    RecordedInWindow(elf, m, Final(elf, target, PAYLOAD_END, m).sbss, ".sbss");
  }

  // ----- what is cleared holds zeros -----

  /** Section k is the last placed one of that name below n. */
  predicate LastNamed(elf: Elf, n: nat, k: nat, name: string)
    requires n <= |elf|
  {
    && k < n && elf[k].Placed() && elf[k].name == name
    && forall j :: k < j < n ==> !(elf[j].Placed() && elf[j].name == name)
  }

  /** The address and size of the last placed section of that name, if it is section k. */
  ghost predicate RecordsLast(elf: Elf, target: word, n: nat, where: (word, word), name: string, k: nat)
    requires n <= |elf|
  {
    LastNamed(elf, n, k, name) ==> where == (LoadAddress(elf, target, k), elf[k].size)
  }

  lemma {:induction false} PlaceRecordsLast(elf: Elf, target: word, limit: word, i: nat, p: Placement, m: Mem, k: nat)
    requires WellFormed(elf) && i <= |elf| && |p.dests| == |elf| && p.base == BaseOf(elf, target, i)
    requires Place(elf, i, target, limit, p, m).0 == Success
    requires RecordsLast(elf, target, i, p.bss, ".bss", k) && RecordsLast(elf, target, i, p.sbss, ".sbss", k)
    ensures var q := Place(elf, i, target, limit, p, m).1;
            RecordsLast(elf, target, |elf|, q.bss, ".bss", k) && RecordsLast(elf, target, |elf|, q.sbss, ".sbss", k)
    decreases |elf| - i
  {
    hide BaseOf, PutBytes, Section.Contents, Section.Placed, Section.IsText, Section.IsData;
    if i < |elf| {
      var r := PlaceOne(elf[i], i, target, limit, p, m);
      NextBase(elf, target, i);
      assert RecordsLast(elf, target, i + 1, r.1.bss, ".bss", k);
      assert RecordsLast(elf, target, i + 1, r.1.sbss, ".sbss", k);
      PlaceRecordsLast(elf, target, limit, i + 1, r.1, r.2, k);
    }
  }

  lemma LastIsRecorded(elf: Elf, target: word, limit: word, m: Mem, k: nat)
    requires WellFormed(elf) && Succeeds(elf, target, limit, m)
    ensures RecordsLast(elf, target, |elf|, Final(elf, target, limit, m).bss, ".bss", k)
    ensures RecordsLast(elf, target, |elf|, Final(elf, target, limit, m).sbss, ".sbss", k)
  {
    hide Place;
    EmptyBase(elf, target);
    PlaceRecordsLast(elf, target, limit, 0, InitialPlacement(elf, target), m, k);
  }

  lemma ClearedByte(m: Mem, where: (word, word), b: word)
    requires where.0 != 0 && b < where.1
    ensures Clear(m, where)[Plus(where.0, b)] == 0
  {
    assert Sub(Plus(where.0, b), where.0) == b;
  }

  lemma ZeroStays(m: Mem, where: (word, word), a: word)
    requires m[a] == 0
    ensures Clear(m, where)[a] == 0
  {
  }

  /** When the payload is entered, the last placed section named .bss and the last one named .sbss hold
      nothing but zeros, whatever relocations patched them. */
  lemma BssHoldsZeros(m: Mem, codeEnd: word, elf: Elf, entry: word, sys: System, k: nat, b: word)
    requires WellFormed(elf) && Fits(codeEnd, elf) && Start(m, codeEnd, elf, entry, sys).0.EntryPoint?
    requires LastNamed(elf, |elf|, k, ".bss") || LastNamed(elf, |elf|, k, ".sbss")
    requires b < elf[k].size
    ensures Start(m, codeEnd, elf, entry, sys).1[Plus(LoadAddress(elf, PayloadStart(elf), k), b)] == 0
  {
    hide Room, And, ModuleDataStart, TargetAddress, Fits, Place, WellFormed, RunImports, RunActs, ModuleActs,
         ModuleImports, Clear, ModuleTable, LoadAddress, Plus, Section.Placed;
    LoadsInWindow(codeEnd, elf);
    var target, maximum, t := PayloadStart(elf), Sub(PAYLOAD_END, ModuleDataStart(codeEnd)), ModuleTable(codeEnd);
    LastIsRecorded(elf, target, PAYLOAD_END, m, k);
    WindowContains(elf, PAYLOAD_END, m, k);
    var (loaded, m1) := LoadModule(m, elf, entry, PAYLOAD_END, maximum, t);
    var bss, sbss, m2 := loaded.data.bss, loaded.data.sbss, RunImports(m1, t, loaded.data.relocations, sys).mem;
    var a := Plus(LoadAddress(elf, target, k), b);
    if LastNamed(elf, |elf|, k, ".bss") {
      ClearedByte(m2, bss, b);
      ZeroStays(Clear(m2, bss), sbss, a);
    } else {
      ClearedByte(Clear(m2, bss), sbss, b);
    }
  }
}

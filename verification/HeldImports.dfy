/** Imports whose slots are held IN_PROGRESS until all imports are done, as the comment in the slot search of
    elfLinkOne intends. */
module HeldImports {
  import opened Bits
  import opened Memory
  import opened PowerPC
  import opened ElfUtils
  import opened Relocation
  import opened LinkRun
  import opened WholeRun

  ghost predicate AllHeld(ops: seq<Op>) {
    forall i :: 0 <= i < |ops| ==> ops[i].mark == RELOC_TRAMP_IMPORT_IN_PROGRESS
  }

  lemma {:induction false} TakersGrow(ops: seq<Op>, i: nat, j: nat)
    requires i < j <= |ops| && ops[i].link.Far() && Lasting(ops[i].mark)
    ensures Takers(ops[..i]) < Takers(ops[..j]) <= Takers(ops)
    decreases |ops|
  {
    if i > 0 {
      assert ops[..i][1..] == ops[1..][..i - 1] && ops[..j][1..] == ops[1..][..j - 1];
      TakersGrow(ops[1..], i - 1, j - 1);
    } else {
      assert ops[..0] == [] && ops[..j][1..] == ops[1..][..j - 1];
      TakersPrefix(ops[1..], j - 1);
    }
  }

  lemma {:induction false} TakersPrefix(ops: seq<Op>, j: nat)
    requires j <= |ops|
    ensures Takers(ops[..j]) <= Takers(ops)
    decreases |ops|
  {
    if j > 0 {
      assert ops[..j][1..] == ops[1..][..j - 1];
      TakersPrefix(ops[1..], j - 1);
    }
  }

  lemma {:induction false} SlotsIncrease(m: Mem, t: Table, i: nat, p: nat, q: nat)
    requires t.InMemory() && i <= t.length && p < q < |AvailableSlots(m, t, i)|
    ensures AvailableSlots(m, t, i)[p] < AvailableSlots(m, t, i)[q]
    decreases t.length - i
  {
    hide Available;
    if Available(m, t, i) {
      if p > 0 { SlotsIncrease(m, t, i + 1, p - 1, q - 1); }
    } else {
      SlotsIncrease(m, t, i + 1, p, q);
    }
  }

  // ----- the end of the import phase -----

  /** Pending slots, from slot i on, are turned into done ones. */
  function Release(m: Mem, t: Table, i: nat): Mem
    requires t.InMemory() && i <= t.length
    decreases t.length - i
  {
    if i == t.length then m
    else if Status(m, t, i) == RELOC_TRAMP_IMPORT_IN_PROGRESS
    then Release(PutWord(m, t.Slot(i) + 16, RELOC_TRAMP_IMPORT_DONE), t, i + 1)
    else Release(m, t, i + 1)
  }

  /** Nothing but the table changes. */
  lemma {:induction false} ReleaseKeepsRange(m: Mem, t: Table, i: nat, a: word, n: nat)
    requires t.InMemory() && i <= t.length && n <= 0x1_0000_0000 && Disjoint(a, n, t.base, 20 * t.length)
    ensures GetBytes(Release(m, t, i), a, n) == GetBytes(m, a, n)
    decreases t.length - i
  {
    hide Status, GetBytes, PutBytes, WordBytes;
    if i < t.length {
      var m1 := PutWord(m, t.Slot(i) + 16, RELOC_TRAMP_IMPORT_DONE);
      GetPutOther(m, t.Slot(i) + 16, WordBytes(RELOC_TRAMP_IMPORT_DONE), a, n);
      ReleaseKeepsRange(if Status(m, t, i) == RELOC_TRAMP_IMPORT_IN_PROGRESS then m1 else m, t, i + 1, a, n);
    }
  }

  lemma MarkDone(m: Mem, t: Table, i: nat, j: nat)
    requires t.InMemory() && i < t.length && j < t.length
    ensures var m1 := PutWord(m, t.Slot(i) + 16, RELOC_TRAMP_IMPORT_DONE);
            && GetBytes(m1, t.Slot(j), 16) == GetBytes(m, t.Slot(j), 16)
            && Status(m1, t, j) == if i == j then RELOC_TRAMP_IMPORT_DONE else Status(m, t, j)
  {
    hide GetBytes, PutBytes, WordBytes, WordOf;
    GetPutOther(m, t.Slot(i) + 16, WordBytes(RELOC_TRAMP_IMPORT_DONE), t.Slot(j), 16);
    if i == j {
      GetPutWord(m, t.Slot(i) + 16, RELOC_TRAMP_IMPORT_DONE);
    } else {
      GetPutOther(m, t.Slot(i) + 16, WordBytes(RELOC_TRAMP_IMPORT_DONE), t.Slot(j) + 16, 4);
    }
  }

  /** Stubs stay as they are; the pending ones can be handed out again. */
  lemma {:induction false} ReleaseEntry(m: Mem, t: Table, i: nat, j: nat)
    requires t.InMemory() && i <= t.length && j < t.length
    ensures GetBytes(Release(m, t, i), t.Slot(j), 16) == GetBytes(m, t.Slot(j), 16)
    ensures Status(Release(m, t, i), t, j) ==
            if i <= j && Status(m, t, j) == RELOC_TRAMP_IMPORT_IN_PROGRESS then RELOC_TRAMP_IMPORT_DONE
            else Status(m, t, j)
    decreases t.length - i
  {
    hide GetBytes, Status, PutWord;
    if i < t.length {
      MarkDone(m, t, i, j);
      var m1 := PutWord(m, t.Slot(i) + 16, RELOC_TRAMP_IMPORT_DONE);
      ReleaseEntry(if Status(m, t, i) == RELOC_TRAMP_IMPORT_IN_PROGRESS then m1 else m, t, i + 1, j);
    }
  }

  /** A far branch that is in place goes through its stub, also after the release; a pending slot is done. */
  lemma ReleasedThrough(m: Mem, t: Table, op: Op, was: seq<byte>, k: nat)
    requires t.InMemory() && |was| == op.link.Width() && op.link.Far() && OffTable(t, op.link)
    requires InPlace(m, t, op, was, k)
    ensures Through(Release(m, t, 0), t, op.link, WordOf(was), k, op.link.Value())
    ensures op.mark == RELOC_TRAMP_IMPORT_IN_PROGRESS ==> Status(Release(m, t, 0), t, k) == RELOC_TRAMP_IMPORT_DONE
  {
    hide GetBytes, StubBytes, WordBytes, WordOf, Status, WithDisplacement24, Release, StubInReach, StubDistance;
    var l, m' := op.link, Release(m, t, 0);
    ReleaseKeepsRange(m, t, 0, l.Target(), 4);
    ReleaseEntry(m, t, 0, k);
    GetPart(m, t.Slot(k), 20, 0, 16);
    GetPart(m', t.Slot(k), 20, 0, 16);
    assert Plus(t.Slot(k), 0) == t.Slot(k);
    assert Entry(m, t, k)[0..16] == Entry(m, t, k)[..16] && Entry(m', t, k)[0..16] == Entry(m', t, k)[..16];
    assert (StubBytes(l.Value()) + WordBytes(op.mark))[..16] == StubBytes(l.Value());
    assert Entry(m, t, k)[16..] == WordBytes(op.mark);
    EntryStatus(m, t, k);
    WordRoundTrip(op.mark);
  }

  /** If import slots were held until all imports are done, every far import would have a slot of its own
      and work, also after the slots have been turned to IMPORT_DONE for the next launch. */
  lemma HeldImportsWork(m: Mem, t: Table, ops: seq<Op>, i: nat, s: Cpu)
    requires t.InMemory() && Separate(t, ops) && AllHeld(ops) && RunLinks(m, t, ops).ok
    requires i < |ops| && ops[i].link.Far() && ops[i].link.addend == 0 && ops[i].link.Value() % 4 == 0
    requires RelativeBranch(ops[i].link, GetWord(m, ops[i].link.Target())) && s.pc == ops[i].link.Target()
    ensures BranchWorks(Release(RunLinks(m, t, ops).mem, t, 0), ops[i].link, GetWord(m, ops[i].link.Target()), s)
    ensures var k := SlotOf(m, t, ops, i);
            k < t.length && Status(Release(RunLinks(m, t, ops).mem, t, 0), t, k) == RELOC_TRAMP_IMPORT_DONE
  {
    hide BranchWorks, RunLinks, AvailableSlots, RelativeBranch, GetBytes, Release, Through, WordOf, SlotOf, Link.Far,
         Status, StubInReach, StubDistance, Entry, StubBytes, WordBytes, WithDisplacement24, Field, Linkable;
    var l, k := ops[i].link, SlotOf(m, t, ops, i);
    FarIsWide(l);
    RunImage(m, t, ops, i);
    assert OffTable(t, l);
    ReleasedThrough(RunLinks(m, t, ops).mem, t, ops[i], GetBytes(m, l.Target(), 4), k);
    ThroughWorks(Release(RunLinks(m, t, ops).mem, t, 0), t, l, GetWord(m, l.Target()), k, l.Value(), s);
  }

  /** The slots of held imports are different. */
  lemma HeldSlotsDiffer(m: Mem, t: Table, ops: seq<Op>, i: nat, j: nat)
    requires t.InMemory() && AllOffTable(t, ops) && AllHeld(ops) && RunLinks(m, t, ops).ok
    requires i < j < |ops| && ops[i].link.Far() && ops[j].link.Far()
    ensures SlotOf(m, t, ops, i) < SlotOf(m, t, ops, j) < t.length
  {
    hide RunLinks, AvailableSlots;
    RunAllocates(m, t, ops);
    TakersGrow(ops, i, j);
    TakersGrow(ops, j, |ops|);
    assert ops[..|ops|] == ops;
    SlotsIncrease(m, t, 0, Takers(ops[..i]), Takers(ops[..j]));
  }

  /** A slot that was taken before, and is not pending, keeps its stub and its status. */
  lemma TakenSlotsSurvive(m: Mem, t: Table, ops: seq<Op>, j: nat)
    requires t.InMemory() && AllOffTable(t, ops) && AllHeld(ops) && RunLinks(m, t, ops).ok && j < t.length
    requires !Available(m, t, j) && Status(m, t, j) != RELOC_TRAMP_IMPORT_IN_PROGRESS
    ensures Status(Release(RunLinks(m, t, ops).mem, t, 0), t, j) == Status(m, t, j)
    ensures GetBytes(Release(RunLinks(m, t, ops).mem, t, 0), t.Slot(j), 16) == GetBytes(m, t.Slot(j), 16)
  {
    hide RunLinks, Release, GetBytes, Status;
    var m' := RunLinks(m, t, ops).mem;
    RunKeepsEntry(m, t, ops, j);
    EntryDecides(m, m', t, j);
    ReleaseEntry(m', t, 0, j);
    GetPart(m, t.Slot(j), 20, 0, 16);
    GetPart(m', t.Slot(j), 20, 0, 16);
    assert Plus(t.Slot(j), 0) == t.Slot(j);
  }
}

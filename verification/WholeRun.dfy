/** The theorems about complete runs: what the program's branches do when everything has been linked,
    what the import phase does to the stubs, and that the order of the relocations does not matter. */
module WholeRun {
  import opened Bits
  import opened Memory
  import opened Wrappers
  import opened PowerPC
  import opened ElfUtils
  import opened Relocation
  import opened Execution
  import opened LinkRun

  // ----- branches -----

  /** A relative branch instruction that can be fetched from the place of a REL24 relocation. */
  predicate RelativeBranch(l: Link, was: word) {
    l.kind == R_PPC_REL24 && l.Target() % 4 == 0 && Opcode(was) == 18 && !Absolute(was)
  }

  /** A near branch goes to S + A in one step. */
  lemma NearBranchReaches(m: Mem, t: Table, op: Op, was: seq<byte>, i: nat, s: Cpu)
    requires t.InMemory() && |was| == op.link.Width()
    requires InPlace(m, t, op, was, i) && !op.link.Far()
    requires op.link.kind == R_PPC_REL24 && RelativeBranch(op.link, WordOf(was)) && s.pc == op.link.Target()
    ensures Run(m, s, 1) == Some(s.(pc := op.link.Value(), lr := LinkRegister(s, WordOf(was))))
  {
    hide WithDisplacement24, WithDisplacement14, Execute, WordOf, WordBytes, GetBytes, LinkRegister;
    var l := op.link;
    WordRoundTrip(WithDisplacement24(WordOf(was), l.Distance()));
    BranchRuns(m, s, WordOf(was), l.Distance());
    ReachesTarget(s.pc, l.Value());
    OneStep(m, s);
  }

  lemma OneStep(m: Mem, s: Cpu)
    ensures Run(m, s, 1) == Step(m, s)
  {
    hide Execute;
    match Step(m, s)
    case None =>
    case Some(s') => assert Run(m, s', 0) == Some(s');
  }

  /** The first step of a far branch goes to slot + A. */
  lemma FarBranchStep(m: Mem, t: Table, op: Op, was: seq<byte>, i: nat, s: Cpu)
    requires t.InMemory() && |was| == op.link.Width()
    requires InPlace(m, t, op, was, i) && op.link.Far() && i < t.length
    requires RelativeBranch(op.link, WordOf(was)) && s.pc == op.link.Target()
    ensures Step(m, s) == Some(s.(pc := W(t.Slot(i) + op.link.addend), lr := LinkRegister(s, WordOf(was))))
    ensures Step(m, s).value.pc == t.Slot(i) <==> op.link.addend == 0
  {
    hide WithDisplacement24, Execute, WordOf, WordBytes, GetBytes, LinkRegister;
    var l := op.link;
    var d := StubDistance(t, i, l);
    WordRoundTrip(WithDisplacement24(WordOf(was), d));
    BranchRuns(m, s, WordOf(was), d);
    ReachesTarget(s.pc, W(t.Slot(i) + l.addend));
    AddendMoves(t.Slot(i), l.addend);
  }

  lemma AddendMoves(a: word, addend: sword)
    ensures W(a + addend) == a <==> addend == 0
  {
  }

  /** A branch into a stub runs through it, in four steps. */
  lemma StubFollows(m: Mem, t: Table, i: nat, v: word, s: Cpu)
    requires t.InMemory() && i < t.length && HoldsStub(m, t, i, v)
    requires s.pc == t.Slot(i) && s.pc % 4 == 0
    ensures Run(m, s, 4) == Some(s.(pc := v / 4 * 4, ctr := v, gpr := s.gpr[11 := v]))
  {
    hide Run, StubBytes;
    GetPart(m, t.Slot(i), 20, 0, 16);
    assert Plus(t.Slot(i), 0) == t.Slot(i);
    assert Entry(m, t, i)[0..16] == Entry(m, t, i)[..16];
    StubRuns(m, s, v);
  }

  /** A branch through slot k follows whatever stub the slot holds now. */
  lemma ThroughSlot(m: Mem, t: Table, l: Link, was: word, k: nat, v: word, s: Cpu)
    requires t.InMemory() && k < t.length && l.addend == 0 && StubInReach(t, k, l)
    requires GetBytes(m, l.Target(), 4) == WordBytes(WithDisplacement24(was, StubDistance(t, k, l)))
    requires Entry(m, t, k)[..16] == StubBytes(v)
    requires RelativeBranch(l, was) && s.pc == l.Target()
    ensures Run(m, s, 5) == Some(s.(pc := v / 4 * 4, lr := LinkRegister(s, was), ctr := v, gpr := s.gpr[11 := v]))
  {
    hide Execute, WordOf, WordBytes, GetBytes, LinkRegister, StubBytes, Displacement24, WithDisplacement24;
    var d := StubDistance(t, k, l);
    WordRoundTrip(WithDisplacement24(was, d));
    BranchRuns(m, s, was, d);
    ReachesTarget(s.pc, W(t.Slot(k) + l.addend));
    var s1 := s.(pc := t.Slot(k), lr := LinkRegister(s, was));
    assert Step(m, s) == Some(s1);
    SlotAligned(t, k, l);
    StubFollows(m, t, k, v, s1);
    RunThen(m, s, s1, 4);
  }

  /** A far branch with addend 0 goes through its stub to S, in five steps; it touches r11 and CTR on
      the way and treats everything else as the direct branch would. It arrives at S itself exactly
      when S is word-aligned. */
  lemma FarBranchReaches(m: Mem, t: Table, op: Op, was: seq<byte>, i: nat, s: Cpu)
    requires t.InMemory() && |was| == op.link.Width()
    requires InPlace(m, t, op, was, i) && op.link.Far() && op.link.addend == 0
    requires RelativeBranch(op.link, WordOf(was)) && s.pc == op.link.Target()
    ensures var v := op.link.Value();
            Run(m, s, 5) == Some(s.(pc := v / 4 * 4, lr := LinkRegister(s, WordOf(was)), ctr := v,
                gpr := s.gpr[11 := v]))
    ensures Run(m, s, 5).value.pc == op.link.Value() <==> op.link.Value() % 4 == 0
  {
    hide Run, WordOf, WordBytes, GetBytes, LinkRegister, StubBytes, WithDisplacement24, Opcode, Absolute;
    assert Entry(m, t, i)[..16] == StubBytes(op.link.Value());
    ThroughSlot(m, t, op.link, WordOf(was), i, op.link.Value(), s);
  }

  lemma RunThen(m: Mem, s: Cpu, s1: Cpu, n: nat)
    requires Step(m, s) == Some(s1)
    ensures Run(m, s, n + 1) == Run(m, s1, n)
  {
    hide Execute;
  }

  lemma SlotAligned(t: Table, i: nat, l: Link)
    requires t.InMemory() && i < t.length && l.addend == 0 && l.Target() % 4 == 0 && StubInReach(t, i, l)
    ensures t.Slot(i) % 4 == 0
  {
    var p, a := l.Target(), t.Slot(i);
    assert W(a + l.addend) == a;
    var g := Sub(a, p);
    assert Signed(g) % 4 == 0;
    SignedMod4(g);
    GapMod4(a, p);
  }

  lemma SignedMod4(x: word)
    ensures Signed(x) % 4 == x % 4
  {
    Multiple4(-0x4000_0000, x);
  }

  /** How a branch that was given to the linker behaves: it reaches S + A as a branch of unlimited range
      would, except that a far one passes through r11 and CTR. */
  ghost predicate BranchWorks(m: Mem, l: Link, was: word, s: Cpu) {
    var v := l.Value();
    var direct := s.(pc := v, lr := LinkRegister(s, was));
    if !l.Far() then Run(m, s, 1) == Some(direct)
    else Run(m, s, 5) == Some(direct.(ctr := v, gpr := s.gpr[11 := v]))
  }

  /** A branch that is in place works; a far one provided that its value is word-aligned. */
  lemma InPlaceWorks(m: Mem, t: Table, op: Op, was: seq<byte>, i: nat, s: Cpu)
    requires t.InMemory() && |was| == op.link.Width() && InPlace(m, t, op, was, i)
    requires op.link.kind == R_PPC_REL24 && RelativeBranch(op.link, WordOf(was)) && s.pc == op.link.Target()
    requires op.link.Far() ==> op.link.addend == 0
    ensures BranchWorks(m, op.link, WordOf(was), s) <==> (op.link.Far() ==> op.link.Value() % 4 == 0)
  {
    hide Run, WordOf, GetBytes, LinkRegister, Opcode, Absolute, InPlace;
    if op.link.Far() {
      FarBranchReaches(m, t, op, was, i, s);
    } else {
      NearBranchReaches(m, t, op, was, i, s);
    }
  }

  /** The branch l, whose word was `was`, goes to slot k, which jumps to v. */
  predicate Through(m: Mem, t: Table, l: Link, was: word, k: nat, v: word)
    requires t.InMemory()
  {
    && k < t.length && StubInReach(t, k, l)
    && GetBytes(m, l.Target(), 4) == WordBytes(WithDisplacement24(was, StubDistance(t, k, l)))
    && HoldsStub(m, t, k, v)
  }

  lemma ThroughWorks(m: Mem, t: Table, l: Link, was: word, k: nat, v: word, s: Cpu)
    requires t.InMemory() && Through(m, t, l, was, k, v) && l.Far() && l.addend == 0
    requires RelativeBranch(l, was) && s.pc == l.Target()
    ensures BranchWorks(m, l, was, s) <==> l.Value() % 4 == 0 && v == l.Value()
  {
    hide Run, GetBytes, LinkRegister, Opcode, Absolute, StubBytes, WordBytes, WithDisplacement24, StubInReach,
         StubDistance, Entry, Link.Far, Link.Target;
    ThroughSlot(m, t, l, was, k, v, s);
    var u := l.Value();
    assert s.gpr[11 := v][11] == v && s.gpr[11 := u][11] == u;
  }

  /** Every branch of a successful run works in the final memory, whatever was linked after it: its
      stub and its own word are never overwritten. */
  lemma WholeRunReaches(m: Mem, t: Table, ops: seq<Op>, i: nat, s: Cpu)
    requires t.InMemory() && Separate(t, ops) && RunLinks(m, t, ops).ok && i < |ops|
    requires ops[i].link.kind == R_PPC_REL24 && RelativeBranch(ops[i].link, GetWord(m, ops[i].link.Target()))
    requires s.pc == ops[i].link.Target()
    requires ops[i].link.Far() ==> Lasting(ops[i].mark) && ops[i].link.addend == 0
    ensures BranchWorks(RunLinks(m, t, ops).mem, ops[i].link, GetWord(m, ops[i].link.Target()), s)
            <==> (ops[i].link.Far() ==> ops[i].link.Value() % 4 == 0)
  {
    hide WordOf, GetBytes, InPlace, RunLinks, SlotOf, BranchWorks, RelativeBranch;
    RunImage(m, t, ops, i);
    InPlaceWorks(RunLinks(m, t, ops).mem, t, ops[i], GetBytes(m, ops[i].link.Target(), 4), SlotOf(m, t, ops, i), s);
  }

  // ----- when a run succeeds -----

  /** What relocation i of a run needs, told from the memory before the run. */
  ghost predicate Placeable(m: Mem, t: Table, ops: seq<Op>, i: nat)
    requires t.InMemory() && i < |ops|
  {
    var l, k := ops[i].link, SlotOf(m, t, ops, i);
    if !l.Far() then Linkable(l)
    else t.base != 0 && k < t.length && Sub(l.Target(), t.Slot(k)) <= 0x1FFFFFC && StubInReach(t, k, l)
  }

  lemma StepSucceeds(m: Mem, t: Table, ops: seq<Op>)
    requires t.InMemory() && ops != []
    ensures Relocate(m, t, ops[0].link, ops[0].mark).ok <==> Placeable(m, t, ops, 0)
  {
    hide StubInReach, Linkable, Occupy;
    FirstAvailable(m, t, 0);
    assert ops[..0] == [];
  }

  ghost predicate AllPlaceable(m: Mem, t: Table, ops: seq<Op>)
    requires t.InMemory()
  {
    forall i :: 0 <= i < |ops| ==> Placeable(m, t, ops, i)
  }

  /** A run succeeds exactly when every relocation is Placeable: the slots it will need are known
      beforehand. In particular a run with more far branches than available slots fails. */
  lemma {:induction false} RunSucceedsExactly(m: Mem, t: Table, ops: seq<Op>)
    requires t.InMemory() && AllOffTable(t, ops)
    ensures RunLinks(m, t, ops).ok <==> AllPlaceable(m, t, ops)
    decreases |ops|
  {
    hide Relocate, LinkOne, Placeable, AllPlaceable, OffTable;
    if ops == [] {
      NonePlaceable(m, t);
    } else {
      var l, mark := ops[0].link, ops[0].mark;
      LinkOneIsRelocate(m, t, l, mark);
      StepSucceeds(m, t, ops);
      var r := Relocate(m, t, l, mark);
      if r.ok {
        RelocateAllocates(m, t, l, mark);
        RunSucceedsExactly(r.mem, t, ops[1..]);
        AllPlaceableSteps(m, r.mem, t, ops);
      } else {
        FirstNotPlaceable(m, t, ops);
      }
    }
  }

  lemma NonePlaceable(m: Mem, t: Table)
    requires t.InMemory()
    ensures AllPlaceable(m, t, [])
  {
  }

  lemma FirstNotPlaceable(m: Mem, t: Table, ops: seq<Op>)
    requires t.InMemory() && ops != [] && !Placeable(m, t, ops, 0)
    ensures !AllPlaceable(m, t, ops)
  {
  }

  lemma AllPlaceableSteps(m: Mem, m1: Mem, t: Table, ops: seq<Op>)
    requires t.InMemory() && ops != [] && Placeable(m, t, ops, 0)
    requires ops[0].link.Far() ==> AvailableSlots(m, t, 0) != []
    requires AvailableSlots(m1, t, 0) ==
             if ops[0].link.Far() && Lasting(ops[0].mark) then AvailableSlots(m, t, 0)[1..] else AvailableSlots(m, t, 0)
    ensures AllPlaceable(m, t, ops) <==> AllPlaceable(m1, t, ops[1..])
  {
    hide Placeable, AvailableSlots;
    forall i | 0 < i < |ops| ensures Placeable(m, t, ops, i) == Placeable(m1, t, ops[1..], i - 1) {
      PlaceableSteps(m, m1, t, ops, i);
    }
    if AllPlaceable(m, t, ops) {
      forall i | 0 <= i < |ops[1..]| ensures Placeable(m1, t, ops[1..], i) {
        assert Placeable(m, t, ops, i + 1);
      }
    }
  }

  lemma PlaceableSteps(m: Mem, m1: Mem, t: Table, ops: seq<Op>, i: nat)
    requires t.InMemory() && 0 < i < |ops|
    requires ops[0].link.Far() ==> AvailableSlots(m, t, 0) != []
    requires AvailableSlots(m1, t, 0) ==
             if ops[0].link.Far() && Lasting(ops[0].mark) then AvailableSlots(m, t, 0)[1..] else AvailableSlots(m, t, 0)
    ensures Placeable(m, t, ops, i) == Placeable(m1, t, ops[1..], i - 1)
  {
    hide StubInReach, Linkable, SlotOf;
    SlotSteps(m, m1, t, ops, i);
  }

  // ----- the import phase -----

  ghost predicate AllImports(ops: seq<Op>) {
    forall i :: 0 <= i < |ops| ==> ops[i].mark == RELOC_TRAMP_IMPORT_DONE
  }

  /** The last far branch among ops, or |ops|. */
  function LastFar(ops: seq<Op>): (r: nat)
    ensures r <= |ops|
    ensures r < |ops| ==> ops[r].link.Far()
    ensures forall i :: 0 <= i < |ops| && (r == |ops| || r < i) ==> !ops[i].link.Far()
  {
    if ops == [] then 0
    else
      var n := |ops| - 1;
      if ops[n].link.Far() then n
      else var r := LastFar(ops[..n]); if r < n then r else |ops|
  }

  lemma {:induction false} ImportsTakeNothing(ops: seq<Op>)
    requires AllImports(ops)
    ensures Takers(ops) == 0
  {
    if ops != [] { ImportsTakeNothing(ops[1..]); }
  }

  /** Far imports do not use up slots, so they all go through the first one that was available; every
      other table entry, in particular every FIXED one, is as it was. */
  lemma {:induction false} ImportsShareOneSlot(m: Mem, t: Table, ops: seq<Op>, j: nat)
    requires t.InMemory() && AllOffTable(t, ops) && AllImports(ops) && RunLinks(m, t, ops).ok
    requires j < t.length
    ensures AvailableSlots(RunLinks(m, t, ops).mem, t, 0) == AvailableSlots(m, t, 0)
    ensures LastFar(ops) < |ops| ==> AvailableSlots(m, t, 0) != []
    ensures Entry(RunLinks(m, t, ops).mem, t, j) ==
            if LastFar(ops) < |ops| && j == AvailableSlots(m, t, 0)[0]
            then StubBytes(ops[LastFar(ops)].link.Value()) + WordBytes(RELOC_TRAMP_IMPORT_DONE)
            else Entry(m, t, j)
    decreases |ops|
  {
    hide Relocate, LinkOne, Entry, StubBytes, WordBytes, AvailableSlots, LastFar;
    if ops != [] {
      var m1 := RunStep(m, t, ops);
      var l, rest := ops[0].link, ops[1..];
      RelocateAllocates(m, t, l, RELOC_TRAMP_IMPORT_DONE);
      ImportsShareOneSlot(m1, t, rest, j);
      RelocateEntry(m, t, l, RELOC_TRAMP_IMPORT_DONE, j);
      assert FilledSlot(m, t, l) == if l.Far() then Some(AvailableSlots(m, t, 0)[0]) else None by {
        FilledByFar(m, t, l);
      }
      LastFarSteps(ops);
    } else {
      EmptyLastFar();
    }
  }

  lemma EmptyLastFar()
    ensures LastFar([]) == 0
  {
  }

  lemma FilledByFar(m: Mem, t: Table, l: Link)
    requires t.InMemory() && Relocate(m, t, l, RELOC_TRAMP_IMPORT_DONE).ok
    ensures FilledSlot(m, t, l) == if l.Far() then Some(FindSlot(m, t, 0)) else None
  {
    hide FindSlot, Occupy;
  }

  lemma LastFarSteps(ops: seq<Op>)
    requires ops != []
    ensures LastFar(ops) == if LastFar(ops[1..]) < |ops| - 1 then LastFar(ops[1..]) + 1
                            else if ops[0].link.Far() then 0 else |ops|
  {
    var r, rest := LastFar(ops), ops[1..];
    forall i | 0 < i < |ops| ensures rest[i - 1] == ops[i] {}
    if LastFar(rest) < |rest| {
      assert ops[LastFar(rest) + 1].link.Far();
    }
    if 0 < r < |ops| {
      assert rest[r - 1].link.Far();
    }
  }

  /** Relocations with slots that stay available share the branch of the first slot. */
  lemma {:induction false} ImportField(m: Mem, t: Table, ops: seq<Op>, i: nat)
    requires t.InMemory() && Separate(t, ops) && AllImports(ops) && RunLinks(m, t, ops).ok
    requires i < |ops| && ops[i].link.Far()
    ensures AvailableSlots(m, t, 0) != []
    ensures var l, k := ops[i].link, AvailableSlots(m, t, 0)[0];
            StubInReach(t, k, l) &&
            GetBytes(RunLinks(m, t, ops).mem, l.Target(), 4) ==
            WordBytes(WithDisplacement24(GetWord(m, l.Target()), StubDistance(t, k, l)))
    decreases |ops|
  {
    hide Relocate, LinkOne, GetBytes, AvailableSlots, FindSlot, StubBytes, WordBytes, WithDisplacement24, Entry,
         StubInReach, StubDistance;
    var m1 := RunStep(m, t, ops);
    var rest, l := ops[1..], ops[i].link;
    RelocateAllocates(m, t, ops[0].link, ops[0].mark);
    if i == 0 {
      RelocateInPlace(m, t, ops[0]);
      forall k | 0 <= k < |rest| ensures Disjoint(rest[k].link.Target(), rest[k].link.Width(), l.Target(), 4) {
        assert Apart(ops[0].link, ops[k + 1].link);
      }
      assert OffTable(t, l);
      RunKeepsRange(m1, t, rest, l.Target(), 4);
    } else {
      assert rest[i - 1] == ops[i];
      ImportField(m1, t, rest, i - 1);
      assert Apart(ops[0].link, l) && OffTable(t, l);
      RelocateRange(m, t, ops[0].link, ops[0].mark, l.Target(), 4);
    }
  }

  /** In memory after the import phase, every far import ends up where the last one was sent. */
  lemma ImportBranchRuns(m: Mem, t: Table, ops: seq<Op>, i: nat, s: Cpu)
    requires t.InMemory() && Separate(t, ops) && AllImports(ops) && RunLinks(m, t, ops).ok
    requires i < |ops| && ops[i].link.Far() && ops[i].link.addend == 0
    requires RelativeBranch(ops[i].link, GetWord(m, ops[i].link.Target())) && s.pc == ops[i].link.Target()
    ensures LastFar(ops) < |ops|
    ensures var v := ops[LastFar(ops)].link.Value();
            Run(RunLinks(m, t, ops).mem, s, 5) ==
            Some(s.(pc := v / 4 * 4, lr := LinkRegister(s, GetWord(m, s.pc)), ctr := v, gpr := s.gpr[11 := v]))
  {
    hide Run, WordOf, GetBytes, LinkRegister, Opcode, Absolute, RunLinks, AvailableSlots, StubBytes, WordBytes,
         WithDisplacement24, Entry;
    ImportField(m, t, ops, i);
    var m', l, k := RunLinks(m, t, ops).mem, ops[i].link, AvailableSlots(m, t, 0)[0];
    var last := ops[LastFar(ops)];
    ImportsShareOneSlot(m, t, ops, k);
    ThroughSlot(m', t, l, GetWord(m, l.Target()), k, last.link.Value(), s);
  }

  /** A far import works exactly when the last far import has the same value: the property that every
      import reaches its own function is false of this linker as soon as two far values differ. */
  lemma ImportWorksExactly(m: Mem, t: Table, ops: seq<Op>, i: nat, s: Cpu)
    requires t.InMemory() && Separate(t, ops) && AllImports(ops) && RunLinks(m, t, ops).ok
    requires i < |ops| && ops[i].link.Far() && ops[i].link.addend == 0
    requires RelativeBranch(ops[i].link, GetWord(m, ops[i].link.Target())) && s.pc == ops[i].link.Target()
    ensures LastFar(ops) < |ops|
    ensures BranchWorks(RunLinks(m, t, ops).mem, ops[i].link, GetWord(m, ops[i].link.Target()), s)
            <==> ops[i].link.Value() % 4 == 0 && ops[LastFar(ops)].link.Value() == ops[i].link.Value()
  {
    hide Run, GetWord, LinkRegister, Opcode, Absolute, RunLinks;
    ImportBranchRuns(m, t, ops, i, s);
    var v, u := ops[i].link.Value(), ops[LastFar(ops)].link.Value();
    assert s.gpr[11 := v][11] == v && s.gpr[11 := u][11] == u;
  }

  // ----- the order of the relocations -----

  /** Byte a is in the field of relocation l. */
  predicate InField(a: word, l: Link) { Sub(a, l.Target()) < l.Width() }

  lemma FieldByte(m: Mem, m': Mem, l: Link, a: word, bs: seq<byte>)
    requires |bs| == l.Width() && InField(a, l)
    requires GetBytes(m', l.Target(), l.Width()) == bs
    ensures m'[a] == bs[Sub(a, l.Target())]
  {
    assert Plus(l.Target(), Sub(a, l.Target())) == a;
  }

  /** Every byte of the final memory that is neither in the table nor in a far branch: the ABI's byte if
      it is in a field, and otherwise what it was. */
  lemma FinalByte(m: Mem, t: Table, ops: seq<Op>, a: word)
    requires t.InMemory() && Separate(t, ops) && RunLinks(m, t, ops).ok
    requires !t.Covers(a)
    ensures forall i :: 0 <= i < |ops| && InField(a, ops[i].link) && !ops[i].link.Far() ==>
              var l := ops[i].link;
              RunLinks(m, t, ops).mem[a] == Field(l, GetBytes(m, l.Target(), l.Width()))[Sub(a, l.Target())]
    ensures (forall i :: 0 <= i < |ops| ==> !InField(a, ops[i].link)) ==> RunLinks(m, t, ops).mem[a] == m[a]
  {
    hide Field, RunLinks;
    var m' := RunLinks(m, t, ops).mem;
    forall i | 0 <= i < |ops| && InField(a, ops[i].link) && !ops[i].link.Far()
      ensures var l := ops[i].link; m'[a] == Field(l, GetBytes(m, l.Target(), l.Width()))[Sub(a, l.Target())]
    {
      var l := ops[i].link;
      RunImage(m, t, ops, i);
      FieldByte(m, m', l, a, Field(l, GetBytes(m, l.Target(), l.Width())));
    }
    if forall i :: 0 <= i < |ops| ==> !InField(a, ops[i].link) {
      forall i | 0 <= i < |ops| ensures Disjoint(ops[i].link.Target(), ops[i].link.Width(), a, 1) {
        assert !InField(a, ops[i].link);
      }
      RunKeepsRange(m, t, ops, a, 1);
      assert GetBytes(m', a, 1)[0] == m'[a] && GetBytes(m, a, 1)[0] == m[a];
    }
  }

  /** Two successful runs of the same relocations in different orders agree on every byte outside the
      table and the far branches. */
  lemma OrderDoesNotMatter(m: Mem, t: Table, ops: seq<Op>, ops': seq<Op>, a: word)
    requires t.InMemory() && Separate(t, ops) && Separate(t, ops') && multiset(ops) == multiset(ops')
    requires RunLinks(m, t, ops).ok && RunLinks(m, t, ops').ok
    requires !t.Covers(a) && forall i :: 0 <= i < |ops| && ops[i].link.Far() ==> !InField(a, ops[i].link)
    ensures RunLinks(m, t, ops).mem[a] == RunLinks(m, t, ops').mem[a]
  {
    hide RunLinks, Field, Separate, InField;
    FinalByte(m, t, ops, a);
    FinalByte(m, t, ops', a);
    if i :| 0 <= i < |ops| && InField(a, ops[i].link) {
      var op := ops[i];
      assert op in multiset(ops');
      var j :| 0 <= j < |ops'| && ops'[j] == op;
      assert InField(a, ops'[j].link) && !ops'[j].link.Far();
    } else {
      forall j | 0 <= j < |ops'| ensures !InField(a, ops'[j].link) {
        assert ops'[j] in multiset(ops);
        var i :| 0 <= i < |ops| && ops[i] == ops'[j];
      }
    }
  }

  /** With near relocations only, neither success nor any byte of memory depends on the order. */
  lemma NearRunsAgree(m: Mem, t: Table, ops: seq<Op>, ops': seq<Op>)
    requires t.InMemory() && Separate(t, ops) && Separate(t, ops') && multiset(ops) == multiset(ops')
    requires forall i :: 0 <= i < |ops| ==> !ops[i].link.Far()
    ensures RunLinks(m, t, ops).ok == RunLinks(m, t, ops').ok
    ensures RunLinks(m, t, ops).ok ==> RunLinks(m, t, ops) == RunLinks(m, t, ops')
  {
    hide RunLinks, Separate, Linkable, SlotOf;
    assert AllOffTable(t, ops) && AllOffTable(t, ops') by { SeparateOffTable(t, ops); SeparateOffTable(t, ops'); }
    NearRunSucceeds(m, t, ops);
    SameElements(ops, ops');
    NearRunSucceeds(m, t, ops');
    if RunLinks(m, t, ops).ok {
      var r, r' := RunLinks(m, t, ops).mem, RunLinks(m, t, ops').mem;
      forall a: word ensures r[a] == r'[a] {
        if t.Covers(a) {
          var i := (a - t.base) / 20;
          NearRunKeepsEntry(m, t, ops, i);
          NearRunKeepsEntry(m, t, ops', i);
          EntryByte(m, r, t, i, a);
          EntryByte(m, r', t, i, a);
        } else {
          OrderDoesNotMatter(m, t, ops, ops', a);
        }
      }
    }
  }

  lemma SeparateOffTable(t: Table, ops: seq<Op>)
    requires t.InMemory() && Separate(t, ops)
    ensures AllOffTable(t, ops)
  {
  }

  lemma SameElements(ops: seq<Op>, ops': seq<Op>)
    requires multiset(ops) == multiset(ops')
    requires forall i :: 0 <= i < |ops| ==> !ops[i].link.Far()
    ensures forall i :: 0 <= i < |ops'| ==> !ops'[i].link.Far()
    ensures (forall i :: 0 <= i < |ops| ==> Linkable(ops[i].link))
            <==> (forall i :: 0 <= i < |ops'| ==> Linkable(ops'[i].link))
  {
    hide Linkable;
    forall i | 0 <= i < |ops'| ensures exists j :: 0 <= j < |ops| && ops[j] == ops'[i] {
      assert ops'[i] in multiset(ops);
    }
    forall i | 0 <= i < |ops| ensures exists j :: 0 <= j < |ops'| && ops'[j] == ops[i] {
      assert ops[i] in multiset(ops');
    }
  }

  lemma NearRunSucceeds(m: Mem, t: Table, ops: seq<Op>)
    requires t.InMemory() && AllOffTable(t, ops)
    requires forall i :: 0 <= i < |ops| ==> !ops[i].link.Far()
    ensures RunLinks(m, t, ops).ok <==> forall i :: 0 <= i < |ops| ==> Linkable(ops[i].link)
  {
    hide RunLinks, Linkable, SlotOf, StubInReach;
    RunSucceedsExactly(m, t, ops);
    if AllPlaceable(m, t, ops) {
      forall i | 0 <= i < |ops| ensures Linkable(ops[i].link) {
        assert Placeable(m, t, ops, i);
      }
    }
  }

  lemma {:induction false} NearRunKeepsEntry(m: Mem, t: Table, ops: seq<Op>, j: nat)
    requires t.InMemory() && AllOffTable(t, ops) && RunLinks(m, t, ops).ok && j < t.length
    requires forall i :: 0 <= i < |ops| ==> !ops[i].link.Far()
    ensures Entry(RunLinks(m, t, ops).mem, t, j) == Entry(m, t, j)
    decreases |ops|
  {
    hide Relocate, LinkOne, Entry, StubBytes, WordBytes;
    if ops != [] {
      var m1 := RunStep(m, t, ops);
      RelocateEntry(m, t, ops[0].link, ops[0].mark, j);
      NearRunKeepsEntry(m1, t, ops[1..], j);
    }
  }

  lemma EntryByte(m: Mem, m': Mem, t: Table, i: nat, a: word)
    requires t.InMemory() && i < t.length && t.Slot(i) <= a < t.Slot(i) + 20
    requires Entry(m', t, i) == Entry(m, t, i)
    ensures m'[a] == m[a]
  {
    var k := a - t.Slot(i);
    assert Plus(t.Slot(i), k) == a;
    assert Entry(m', t, i)[k] == Entry(m, t, i)[k];
  }
}

/** Whole runs of the linker: a sequence of relocations applied one after the other to one memory. */
module LinkRun {
  import opened Bits
  import opened Memory
  import opened Wrappers
  import opened ElfUtils
  import opened Relocation

  /** A relocation and the status its trampoline slot is given, if it needs one. */
  datatype Op = Op(link: Link, mark: word)

  function RunLinks(m: Mem, t: Table, ops: seq<Op>): Result
    requires t.InMemory()
    decreases |ops|
  {
    if ops == [] then Result(true, m)
    else
      var r := LinkOne(m, t, ops[0].link, ops[0].mark);
      if r.ok then RunLinks(r.mem, t, ops[1..]) else r
  }

  /** The field is apart from the trampoline table. */
  predicate OffTable(t: Table, l: Link)
    requires t.InMemory()
  {
    Disjoint(l.Target(), l.Width(), t.base, 20 * t.length)
  }

  /** The fields are pairwise apart, and apart from the table. */
  ghost predicate Separate(t: Table, ops: seq<Op>)
    requires t.InMemory()
  {
    && (forall i :: 0 <= i < |ops| ==> OffTable(t, ops[i].link))
    && forall i, j :: 0 <= i < j < |ops| ==> Apart(ops[i].link, ops[j].link)
  }

  predicate Apart(l: Link, k: Link) { Disjoint(l.Target(), l.Width(), k.Target(), k.Width()) }

  /** A slot with this status is never handed out again. */
  predicate Lasting(mark: word) { mark != RELOC_TRAMP_FREE && mark != RELOC_TRAMP_IMPORT_DONE }

  function Entry(m: Mem, t: Table, i: nat): (r: seq<byte>)
    requires t.InMemory() && i < t.length
    ensures |r| == 20
  {
    GetBytes(m, t.Slot(i), 20)
  }

  predicate HoldsStub(m: Mem, t: Table, i: nat, value: word)
    requires t.InMemory() && i < t.length
  {
    Entry(m, t, i)[..16] == StubBytes(value)
  }

  lemma EntryStatus(m: Mem, t: Table, i: nat)
    requires t.InMemory() && i < t.length
    ensures Status(m, t, i) == WordOf(Entry(m, t, i)[16..])
  {
    GetPart(m, t.Slot(i), 20, 16, 4);
    assert Entry(m, t, i)[16..20] == Entry(m, t, i)[16..];
  }

  lemma EntryDecides(m: Mem, m': Mem, t: Table, i: nat)
    requires t.InMemory() && i < t.length && Entry(m', t, i) == Entry(m, t, i)
    ensures Status(m', t, i) == Status(m, t, i)
    ensures Available(m', t, i) == Available(m, t, i)
  {
    EntryStatus(m, t, i);
    EntryStatus(m', t, i);
  }

  // ----- one step -----

  /** The slot a relocation fills: that of a far branch that finds one in reach. */
  function FilledSlot(m: Mem, t: Table, l: Link): Option<nat>
    requires t.InMemory()
  {
    if l.Far() then ReachableSlot(m, t, l.Target()) else None
  }

  lemma OccupiedEntry(m: Mem, t: Table, i: nat, value: word, mark: word)
    requires t.InMemory() && i < t.length
    ensures Entry(Occupy(m, t, i, value, mark), t, i) == StubBytes(value) + WordBytes(mark)
    ensures HoldsStub(Occupy(m, t, i, value, mark), t, i, value)
    ensures Status(Occupy(m, t, i, value, mark), t, i) == mark
  {
    hide StubBytes, WordBytes, WordOf, GetWord;
    var m' := Occupy(m, t, i, value, mark);
    GetPut(m, t.Slot(i), StubBytes(value) + WordBytes(mark));
    assert Entry(m', t, i)[16..] == WordBytes(mark);
    EntryStatus(m', t, i);
    WordRoundTrip(mark);
  }

  lemma OtherEntry(m: Mem, t: Table, i: nat, value: word, mark: word, j: nat)
    requires t.InMemory() && i < t.length && j < t.length && i != j
    ensures Entry(Occupy(m, t, i, value, mark), t, j) == Entry(m, t, j)
  {
    hide StubBytes, WordBytes, GetWord;
    GetPutOther(m, t.Slot(i), StubBytes(value) + WordBytes(mark), t.Slot(j), 20);
  }

  /** What a relocation leaves in memory apart from its field: either nothing else, or its slot. */
  function SlotImage(m: Mem, t: Table, l: Link, mark: word): Mem
    requires t.InMemory()
  {
    match FilledSlot(m, t, l)
    case None => m
    case Some(i) => Occupy(m, t, i, l.Value(), mark)
  }

  lemma FarIsWide(l: Link)
    ensures l.Far() ==> l.Width() == 4
  {
  }

  /** A relocation fills its slot and writes at most its own field. */
  lemma RelocateShape(m: Mem, t: Table, l: Link, mark: word) returns (bs: seq<byte>)
    requires t.InMemory()
    ensures |bs| == l.Width() || bs == []
    ensures Relocate(m, t, l, mark).mem == PutBytes(SlotImage(m, t, l, mark), l.Target(), bs)
  {
    hide Occupy, StubBytes, WordBytes, WithDisplacement24, Field, Linkable, ReachableSlot;
    var r := FilledSlot(m, t, l);
    var m' := SlotImage(m, t, l, mark);
    PutNothing(m', l.Target());
    if r.None? {
      bs := if !l.Far() && Linkable(l) then Field(l, GetBytes(m, l.Target(), l.Width())) else [];
    } else if StubInReach(t, r.value, l) {
      bs := WordBytes(WithDisplacement24(GetWord(m', l.Target()), StubDistance(t, r.value, l)));
    } else {
      bs := [];
    }
  }

  /** Every table entry but the filled one is untouched by a relocation whose field is off the table. */
  lemma RelocateEntry(m: Mem, t: Table, l: Link, mark: word, j: nat)
    requires t.InMemory() && OffTable(t, l) && j < t.length
    ensures var m' := Relocate(m, t, l, mark).mem;
            if FilledSlot(m, t, l) == Some(j)
            then Entry(m', t, j) == StubBytes(l.Value()) + WordBytes(mark)
                 && Status(m', t, j) == mark && HoldsStub(m', t, j, l.Value())
            else Entry(m', t, j) == Entry(m, t, j)
                 && Status(m', t, j) == Status(m, t, j)
  {
    hide Occupy, StubBytes, WordBytes, GetWord, Relocate, ReachableSlot;
    var bs := RelocateShape(m, t, l, mark);
    var m1, m2 := SlotImage(m, t, l, mark), Relocate(m, t, l, mark).mem;
    GetPutOther(m1, l.Target(), bs, t.Slot(j), 20);
    EntryDecides(m1, m2, t, j);
    if FilledSlot(m, t, l) == Some(j) {
      OccupiedEntry(m, t, j, l.Value(), mark);
    } else if FilledSlot(m, t, l).Some? {
      OtherEntry(m, t, FilledSlot(m, t, l).value, l.Value(), mark, j);
      EntryDecides(m, m1, t, j);
    }
  }

  /** A range apart from the field and from the table is untouched. */
  lemma RelocateRange(m: Mem, t: Table, l: Link, mark: word, a: word, n: nat)
    requires t.InMemory() && n <= 0x1_0000_0000
    requires Disjoint(l.Target(), l.Width(), a, n) && Disjoint(a, n, t.base, 20 * t.length)
    ensures GetBytes(Relocate(m, t, l, mark).mem, a, n) == GetBytes(m, a, n)
  {
    hide StubBytes, WordBytes, GetWord, Relocate, ReachableSlot;
    var bs := RelocateShape(m, t, l, mark);
    GetPutOther(SlotImage(m, t, l, mark), l.Target(), bs, a, n);
    match FilledSlot(m, t, l) {
      case None =>
      case Some(i) =>
        GetPutOther(m, t.Slot(i), StubBytes(l.Value()) + WordBytes(mark), a, n);
    }
  }

  // ----- what a relocation leaves behind -----

  /** The result of relocation l in memory m', its place having held `was` before; a far branch goes
      through slot i. */
  predicate InPlace(m': Mem, t: Table, op: Op, was: seq<byte>, i: nat)
    requires t.InMemory() && |was| == op.link.Width()
  {
    var l := op.link;
    if !l.Far() then Linkable(l) && GetBytes(m', l.Target(), l.Width()) == Field(l, was)
    else
      && i < t.length
      && StubInReach(t, i, l)
      && GetBytes(m', l.Target(), 4) == WordBytes(WithDisplacement24(WordOf(was), StubDistance(t, i, l)))
      && Entry(m', t, i) == StubBytes(l.Value()) + WordBytes(op.mark)
  }

  /** A successful relocation is in place right after it. */
  lemma RelocateInPlace(m: Mem, t: Table, op: Op)
    requires t.InMemory() && OffTable(t, op.link)
    requires Relocate(m, t, op.link, op.mark).ok
    ensures InPlace(Relocate(m, t, op.link, op.mark).mem, t, op, GetBytes(m, op.link.Target(), op.link.Width()),
                    FindSlot(m, t, 0))
  {
    hide StubBytes, WordBytes, WithDisplacement24, Field, WordOf, Entry, StubDistance, Occupy, FindSlot;
    var l := op.link;
    if !l.Far() {
      GetPut(m, l.Target(), Field(l, GetBytes(m, l.Target(), l.Width())));
    } else {
      var i := ReachableSlot(m, t, l.Target()).value;
      RelocateEntry(m, t, l, op.mark, i);
      var m' := Occupy(m, t, i, l.Value(), op.mark);
      GetPut(m', l.Target(), WordBytes(WithDisplacement24(GetWord(m', l.Target()), StubDistance(t, i, l))));
      OccupyOffField(m, t, l, i, op.mark);
    }
  }

  lemma OccupyOffField(m: Mem, t: Table, l: Link, i: nat, mark: word)
    requires t.InMemory() && OffTable(t, l) && i < t.length
    ensures GetBytes(Occupy(m, t, i, l.Value(), mark), l.Target(), l.Width()) == GetBytes(m, l.Target(), l.Width())
  {
    hide StubBytes, WordBytes;
    GetPutOther(m, t.Slot(i), StubBytes(l.Value()) + WordBytes(mark), l.Target(), l.Width());
  }

  // ----- the allocator over a run -----

  /** The available slots from i on, lowest first. */
  function AvailableSlots(m: Mem, t: Table, i: nat): (r: seq<nat>)
    requires t.InMemory() && i <= t.length
    ensures forall k :: 0 <= k < |r| ==> i <= r[k] < t.length
    decreases t.length - i
  {
    if i == t.length then []
    else if Available(m, t, i) then [i] + AvailableSlots(m, t, i + 1)
    else AvailableSlots(m, t, i + 1)
  }

  lemma {:induction false} FirstAvailable(m: Mem, t: Table, i: nat)
    requires t.InMemory() && i <= t.length
    ensures FindSlot(m, t, i) == if AvailableSlots(m, t, i) == [] then t.length else AvailableSlots(m, t, i)[0]
    decreases t.length - i
  {
    if i < t.length && !Available(m, t, i) { FirstAvailable(m, t, i + 1); }
  }

  lemma {:induction false} SameAvailable(m: Mem, m': Mem, t: Table, i: nat)
    requires t.InMemory() && i <= t.length
    requires forall j: nat :: i <= j < t.length ==> Available(m', t, j) == Available(m, t, j)
    ensures AvailableSlots(m', t, i) == AvailableSlots(m, t, i)
    decreases t.length - i
  {
    if i < t.length { SameAvailable(m, m', t, i + 1); }
  }

  /** Taking the first available slot out of circulation drops it from the list. */
  lemma {:induction false} TakeFirst(m: Mem, m': Mem, t: Table, i: nat)
    requires t.InMemory() && i <= t.length && FindSlot(m, t, i) < t.length
    requires forall j: nat :: i <= j < t.length ==>
               Available(m', t, j) == (Available(m, t, j) && j != FindSlot(m, t, i))
    ensures AvailableSlots(m, t, i) != [] && AvailableSlots(m', t, i) == AvailableSlots(m, t, i)[1..]
    decreases t.length - i
  {
    if Available(m, t, i) {
      SameAvailable(m, m', t, i + 1);
    } else {
      TakeFirst(m, m', t, i + 1);
    }
  }

  /** How one successful relocation changes the list of available slots. */
  lemma RelocateAllocates(m: Mem, t: Table, l: Link, mark: word)
    requires t.InMemory() && OffTable(t, l) && Relocate(m, t, l, mark).ok
    ensures l.Far() ==> AvailableSlots(m, t, 0) != [] && FindSlot(m, t, 0) == AvailableSlots(m, t, 0)[0]
    ensures AvailableSlots(Relocate(m, t, l, mark).mem, t, 0) ==
            if l.Far() && Lasting(mark) then AvailableSlots(m, t, 0)[1..] else AvailableSlots(m, t, 0)
  {
    hide StubBytes, WordBytes, GetWord, FindSlot, Occupy, AvailableSlots, Status;
    FirstAvailable(m, t, 0);
    var m' := Relocate(m, t, l, mark).mem;
    forall j: nat | j < t.length
      ensures Available(m', t, j) == (Available(m, t, j) && !(FilledSlot(m, t, l) == Some(j) && Lasting(mark)))
    {
      RelocateEntry(m, t, l, mark, j);
    }
    if l.Far() && Lasting(mark) {
      TakeFirst(m, m', t, 0);
    } else {
      SameAvailable(m, m', t, 0);
    }
  }

  /** The number of relocations among ops that take a slot for good. */
  function Takers(ops: seq<Op>): nat {
    if ops == [] then 0 else (if ops[0].link.Far() && Lasting(ops[0].mark) then 1 else 0) + Takers(ops[1..])
  }

  ghost predicate AllOffTable(t: Table, ops: seq<Op>)
    requires t.InMemory()
  {
    forall i :: 0 <= i < |ops| ==> OffTable(t, ops[i].link)
  }

  /** One step of a run that succeeds as a whole. */
  lemma RunStep(m: Mem, t: Table, ops: seq<Op>) returns (m1: Mem)
    requires t.InMemory() && ops != [] && RunLinks(m, t, ops).ok
    ensures Relocate(m, t, ops[0].link, ops[0].mark) == Result(true, m1)
    ensures RunLinks(m, t, ops) == RunLinks(m1, t, ops[1..])
  {
    hide LinkOne, Relocate;
    LinkOneIsRelocate(m, t, ops[0].link, ops[0].mark);
    m1 := Relocate(m, t, ops[0].link, ops[0].mark).mem;
  }

  /** A successful run hands out the available slots in order, one to each far branch that keeps it. */
  lemma {:induction false} RunAllocates(m: Mem, t: Table, ops: seq<Op>)
    requires t.InMemory() && AllOffTable(t, ops) && RunLinks(m, t, ops).ok
    ensures Takers(ops) <= |AvailableSlots(m, t, 0)|
    ensures AvailableSlots(RunLinks(m, t, ops).mem, t, 0) == AvailableSlots(m, t, 0)[Takers(ops)..]
    decreases |ops|
  {
    hide Relocate, LinkOne, AvailableSlots;
    if ops != [] {
      var m1 := RunStep(m, t, ops);
      RelocateAllocates(m, t, ops[0].link, ops[0].mark);
      RunAllocates(m1, t, ops[1..]);
    }
  }

  // ----- what a run leaves alone -----

  /** A slot that is not available at the start is never touched, whether the run succeeds or not. */
  lemma {:induction false} RunKeepsEntry(m: Mem, t: Table, ops: seq<Op>, j: nat)
    requires t.InMemory() && AllOffTable(t, ops)
    requires j < t.length && !Available(m, t, j)
    ensures Entry(RunLinks(m, t, ops).mem, t, j) == Entry(m, t, j)
    decreases |ops|
  {
    hide Relocate, LinkOne, Entry, Status, StubBytes, WordBytes;
    if ops != [] {
      LinkOneIsRelocate(m, t, ops[0].link, ops[0].mark);
      RelocateEntry(m, t, ops[0].link, ops[0].mark, j);
      var r := Relocate(m, t, ops[0].link, ops[0].mark);
      if r.ok { RunKeepsEntry(r.mem, t, ops[1..], j); }
    }
  }

  /** A range apart from every field and from the table is never touched. */
  lemma {:induction false} RunKeepsRange(m: Mem, t: Table, ops: seq<Op>, a: word, n: nat)
    requires t.InMemory() && n <= 0x1_0000_0000
    requires Disjoint(a, n, t.base, 20 * t.length)
    requires forall i :: 0 <= i < |ops| ==> Disjoint(ops[i].link.Target(), ops[i].link.Width(), a, n)
    ensures GetBytes(RunLinks(m, t, ops).mem, a, n) == GetBytes(m, a, n)
    decreases |ops|
  {
    hide Relocate, LinkOne, GetBytes;
    if ops != [] {
      LinkOneIsRelocate(m, t, ops[0].link, ops[0].mark);
      RelocateRange(m, t, ops[0].link, ops[0].mark, a, n);
      var r := Relocate(m, t, ops[0].link, ops[0].mark);
      if r.ok { RunKeepsRange(r.mem, t, ops[1..], a, n); }
    }
  }

  // ----- the image a run leaves behind -----

  /** The slot of the i-th relocation of a run, if it takes one for good. */
  function SlotOf(m: Mem, t: Table, ops: seq<Op>, i: nat): nat
    requires t.InMemory() && i < |ops|
  {
    var slots := AvailableSlots(m, t, 0);
    if Takers(ops[..i]) < |slots| then slots[Takers(ops[..i])] else t.length
  }

  /** A relocation that is in place stays in place to the end of the run. */
  lemma StaysInPlace(m: Mem, t: Table, ops: seq<Op>, op: Op, was: seq<byte>, i: nat)
    requires t.InMemory() && AllOffTable(t, ops) && RunLinks(m, t, ops).ok
    requires OffTable(t, op.link) && |was| == op.link.Width()
    requires forall k :: 0 <= k < |ops| ==> Apart(op.link, ops[k].link)
    requires InPlace(m, t, op, was, i) && (op.link.Far() ==> Lasting(op.mark))
    ensures InPlace(RunLinks(m, t, ops).mem, t, op, was, i)
  {
    hide RunLinks, GetBytes, StubBytes, WordBytes, WordOf, WithDisplacement24, Field, StubDistance, Entry, Available;
    var l := op.link;
    forall k | 0 <= k < |ops| ensures Disjoint(ops[k].link.Target(), ops[k].link.Width(), l.Target(), l.Width()) {
      assert Apart(l, ops[k].link);
    }
    RunKeepsRange(m, t, ops, l.Target(), l.Width());
    if l.Far() {
      LastingStub(m, t, op, i);
      RunKeepsEntry(m, t, ops, i);
    }
  }

  lemma LastingStub(m: Mem, t: Table, op: Op, i: nat)
    requires t.InMemory() && i < t.length && Lasting(op.mark)
    requires Entry(m, t, i) == StubBytes(op.link.Value()) + WordBytes(op.mark)
    ensures !Available(m, t, i)
  {
    hide StubBytes, WordBytes, WordOf, Entry, GetWord;
    assert Entry(m, t, i)[16..] == WordBytes(op.mark);
    EntryStatus(m, t, i);
    WordRoundTrip(op.mark);
  }

  /** At the end of a successful run over separate fields, every near relocation and every far branch
      with a lasting slot is in place: its field is the ABI's function of the bytes it held before the
      run, and the far branches have taken the available slots in order. */
  lemma {:induction false} RunImage(m: Mem, t: Table, ops: seq<Op>, i: nat)
    requires t.InMemory() && Separate(t, ops) && RunLinks(m, t, ops).ok && i < |ops|
    requires ops[i].link.Far() ==> Lasting(ops[i].mark)
    ensures InPlace(RunLinks(m, t, ops).mem, t, ops[i],
                    GetBytes(m, ops[i].link.Target(), ops[i].link.Width()), SlotOf(m, t, ops, i))
    decreases |ops|
  {
    hide Relocate, LinkOne, GetBytes, AvailableSlots, FindSlot, Takers, InPlace;
    var m1 := RunStep(m, t, ops);
    var rest, op := ops[1..], ops[i];
    RelocateAllocates(m, t, ops[0].link, ops[0].mark);
    SlotSteps(m, m1, t, ops, i);
    if i == 0 {
      RelocateInPlace(m, t, op);
      FarSlotIsFirst(m, t, op, SlotOf(m, t, ops, 0), FindSlot(m, t, 0), GetBytes(m, op.link.Target(), op.link.Width()),
          m1);
      StaysInPlace(m1, t, rest, op, GetBytes(m, op.link.Target(), op.link.Width()), SlotOf(m, t, ops, 0));
    } else {
      assert rest[i - 1] == op;
      RunImage(m1, t, rest, i - 1);
      assert Apart(ops[0].link, op.link) && OffTable(t, op.link);
      RelocateRange(m, t, ops[0].link, ops[0].mark, op.link.Target(), op.link.Width());
    }
  }

  lemma FarSlotIsFirst(m: Mem, t: Table, op: Op, i: nat, j: nat, was: seq<byte>, m': Mem)
    requires t.InMemory() && |was| == op.link.Width()
    requires InPlace(m', t, op, was, j) && (op.link.Far() ==> i == j)
    ensures InPlace(m', t, op, was, i)
  {
  }

  lemma SlotSteps(m: Mem, m1: Mem, t: Table, ops: seq<Op>, i: nat)
    requires t.InMemory() && i < |ops|
    requires ops[0].link.Far() ==> AvailableSlots(m, t, 0) != []
    requires AvailableSlots(m1, t, 0) ==
             if ops[0].link.Far() && Lasting(ops[0].mark) then AvailableSlots(m, t, 0)[1..] else AvailableSlots(m, t, 0)
    ensures i > 0 ==> SlotOf(m, t, ops, i) == SlotOf(m1, t, ops[1..], i - 1)
    ensures i == 0 && ops[0].link.Far() ==> SlotOf(m, t, ops, i) == AvailableSlots(m, t, 0)[0]
  {
    hide AvailableSlots;
    if i > 0 {
      assert ops[..i][0] == ops[0] && ops[..i][1..] == ops[1..][..i - 1];
    }
  }
}

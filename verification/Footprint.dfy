/** Which bytes one relocation may change: elfLinkOne writes its field wherever that is, whether or not it lies
    in the section that it belongs to. */
module Footprint {
  import opened Bits
  import opened Memory
  import opened ElfUtils
  import opened Relocation
  import opened LinkRun
  import opened Containment

  // ----- fields that are replaced as a whole -----

  predicate IsBranch(kind: byte) { kind == R_PPC_REL14 || kind == R_PPC_REL24 }

  /** A memory filled with one byte. */
  function Filled(b: byte): Mem { seq(0x1_0000_0000, (i: nat) => b) }

  /** Such a field does not depend on what it held. */
  lemma FieldIsNew(l: Link, was: seq<byte>, was': seq<byte>)
    requires !IsBranch(l.kind) && l.Width() > 0 && |was| == |was'| == l.Width()
    ensures Field(l, was) == Field(l, was')
  {
    hide WordBytes, HalfBytes, Ha, Hi, Lo;
  }

  /** A relocation that is not a branch keeps byte a, off the table, of every memory exactly when a is not in
      its field: nothing else is checked. */
  lemma DataFieldExact(t: Table, l: Link, mark: word, a: word)
    requires t.InMemory() && !t.Covers(a) && !IsBranch(l.kind)
    ensures (forall m: Mem :: LinkOne(m, t, l, mark).mem[a] == m[a]) <==> Untouched(t, l, a)
  {
    hide LinkOne, Field, PutBytes;
    if Untouched(t, l, a) {
      forall m: Mem ensures LinkOne(m, t, l, mark).mem[a] == m[a] { LinkKeeps(m, t, l, mark, a); }
    } else {
      var k := Sub(a, l.Target());
      InField(l, a);
      var b := Field(l, seq(l.Width(), (i: nat) => 0))[k];
      var m := Filled((b as nat + 1) % 0x100);
      var was := GetBytes(m, l.Target(), l.Width());
      LinkOneIsRelocate(m, t, l, mark);
      FieldIsNew(l, was, seq(l.Width(), (i: nat) => 0));
      assert LinkOne(m, t, l, mark).mem[a] != m[a];
    }
  }

  lemma InField(l: Link, a: word)
    requires !Disjoint(l.Target(), l.Width(), a, 1)
    ensures l.Width() > 0 && Sub(a, l.Target()) < l.Width()
  {
  }

  // ----- branches -----

  /** The word at the place of a branch stays as it is. */
  predicate WordStays(m: Mem, t: Table, l: Link, mark: word)
    requires t.InMemory()
  {
    GetWord(LinkOne(m, t, l, mark).mem, l.Target()) == GetWord(m, l.Target())
  }

  /** A near or a conditional branch is left alone in every memory exactly when it is refused. */
  lemma NearBranchExact(t: Table, l: Link, mark: word)
    requires t.InMemory() && IsBranch(l.kind) && !l.Far()
    ensures (forall m: Mem :: WordStays(m, t, l, mark)) <==> !Linkable(l)
  {
    hide LinkOne, PutBytes, GetBytes, WordOf, WordBytes, WithDisplacement14, WithDisplacement24, Linkable;
    if Linkable(l) {
      var w := DifferentWord(l);
      var m := PutWord(Filled(0), l.Target(), w);
      GetPutWord(Filled(0), l.Target(), w);
      LinkOneIsRelocate(m, t, l, mark);
      BytesRoundTrip(GetBytes(m, l.Target(), 4));
      GetPutWord(m, l.Target(), PatchedWord(l, w));
      assert !WordStays(m, t, l, mark);
    } else {
      forall m: Mem ensures WordStays(m, t, l, mark) { LinkOneIsRelocate(m, t, l, mark); }
    }
  }

  function PatchedWord(l: Link, w: word): word {
    if l.kind == R_PPC_REL14 then WithDisplacement14(w, l.Distance()) else WithDisplacement24(w, l.Distance())
  }

  /** Words with displacement 0 and 4 are patched to the same word. */
  lemma DifferentWord(l: Link) returns (w: word)
    ensures PatchedWord(l, w) != w
  {
    w := if PatchedWord(l, 0) != 0 then 0 else 4;
    ZeroAndFour(l.Distance());
  }

  lemma ZeroAndFour(d: int)
    ensures WithDisplacement14(4, d) == WithDisplacement14(0, d) && WithDisplacement24(4, d) == WithDisplacement24(0, d)
  {
  }

  /** A slot that a far branch could go through, if it were the first available one. */
  ghost predicate CouldReach(t: Table, l: Link)
    requires t.InMemory()
  {
    t.base != 0 && exists i :: 0 <= i < t.length && Sub(l.Target(), t.Slot(i)) <= 0x1FFFFFC && StubInReach(t, i, l)
  }

  /** A far branch is left alone in every memory exactly when no slot of the table is in its reach. */
  lemma FarBranchExact(t: Table, l: Link, mark: word)
    requires t.InMemory() && l.Far() && OffTable(t, l)
    ensures (forall m: Mem :: WordStays(m, t, l, mark)) <==> !CouldReach(t, l)
  {
    hide LinkOne, StubInReach, Relocate, StubDistance, WithDisplacement24, GetWord, Link.Far;
    if CouldReach(t, l) {
      var i :| 0 <= i < t.length && Sub(l.Target(), t.Slot(i)) <= 0x1FFFFFC && StubInReach(t, i, l);
      var w := if WithDisplacement24(0, StubDistance(t, i, l)) != 0 then 0 else 4;
      ZeroAndFour(StubDistance(t, i, l));
      FarIsWide(l);
      var m := OneSlotFree(t, l, i, w);
      LinkOneIsRelocate(m, t, l, mark);
      FarWord(m, t, l, mark, i);
      assert !WordStays(m, t, l, mark);
    } else {
      forall m: Mem ensures WordStays(m, t, l, mark) {
        LinkOneIsRelocate(m, t, l, mark);
        if Relocate(m, t, l, mark).ok { SlotIsReachable(m, t, l, mark); }
        if !Relocate(m, t, l, mark).ok { RefusedWord(m, t, l, mark); }
      }
    }
  }

  lemma SlotIsReachable(m: Mem, t: Table, l: Link, mark: word)
    requires t.InMemory() && l.Far() && Relocate(m, t, l, mark).ok
    ensures CouldReach(t, l)
  {
    hide FindSlot, StubInReach, Occupy, Link.Far;
    var i := FindSlot(m, t, 0);
    assert StubInReach(t, i, l);
  }

  /** A refused far branch may have filled a slot, but its own word is untouched. */
  lemma RefusedWord(m: Mem, t: Table, l: Link, mark: word)
    requires t.InMemory() && l.Far() && OffTable(t, l) && !Relocate(m, t, l, mark).ok
    ensures GetWord(Relocate(m, t, l, mark).mem, l.Target()) == GetWord(m, l.Target())
  {
    hide FindSlot, StubInReach, Occupy, GetBytes, WordOf, WithDisplacement24;
    var r := ReachableSlot(m, t, l.Target());
    if r.Some? { OccupyOffField(m, t, l, r.value, mark); }
  }

  /** A far branch whose first available slot is i. */
  lemma FarWord(m: Mem, t: Table, l: Link, mark: word, i: nat)
    requires t.InMemory() && l.Far() && OffTable(t, l) && t.base != 0 && i < t.length
    requires Sub(l.Target(), t.Slot(i)) <= 0x1FFFFFC && StubInReach(t, i, l) && FindSlot(m, t, 0) == i
    ensures GetWord(Relocate(m, t, l, mark).mem, l.Target()) ==
            WithDisplacement24(GetWord(m, l.Target()), StubDistance(t, i, l))
  {
    hide FindSlot, StubInReach, Occupy, GetBytes, WordOf, WordBytes, PutBytes, WithDisplacement24, StubDistance;
    OccupyOffField(m, t, l, i, mark);
    var m' := Occupy(m, t, i, l.Value(), mark);
    GetPutWord(m', l.Target(), WithDisplacement24(GetWord(m', l.Target()), StubDistance(t, i, l)));
  }

  /** A memory in which slot i is the only one that is available, with w at the place. */
  lemma OneSlotFree(t: Table, l: Link, i: nat, w: word) returns (m: Mem)
    requires t.InMemory() && OffTable(t, l) && l.Width() == 4 && i < t.length
    ensures FindSlot(m, t, 0) == i && GetWord(m, l.Target()) == w
  {
    hide GetBytes, WordOf, WordBytes, PutBytes, Filled;
    var taken := Filled(1);
    var free := PutWord(taken, t.Slot(i) + 16, RELOC_TRAMP_FREE);
    m := PutWord(free, l.Target(), w);
    GetPutWord(free, l.Target(), w);
    GetPutWord(taken, t.Slot(i) + 16, RELOC_TRAMP_FREE);
    forall j: nat | j < t.length ensures Status(m, t, j) == if j == i then RELOC_TRAMP_FREE else 0x0101_0101 {
      GetPutOther(free, l.Target(), WordBytes(w), t.Slot(j) + 16, 4);
      if j != i {
        GetPutOther(taken, t.Slot(i) + 16, WordBytes(RELOC_TRAMP_FREE), t.Slot(j) + 16, 4);
        FilledWord(t.Slot(j) + 16);
      }
    }
    OnlySlot(m, t, i, 0);
  }

  lemma FilledWord(a: word)
    ensures GetWord(Filled(1), a) == 0x0101_0101
  {
    assert GetBytes(Filled(1), a, 4) == [1, 1, 1, 1];
  }

  lemma {:induction false} OnlySlot(m: Mem, t: Table, i: nat, k: nat)
    requires t.InMemory() && k <= i < t.length
    requires forall j: nat :: j < t.length ==> (Available(m, t, j) <==> j == i)
    ensures FindSlot(m, t, k) == i
    decreases i - k
  {
    hide Available;
    if k < i { OnlySlot(m, t, i, k + 1); }
  }
}

/** What a relocation means: the field formulas of the System V ABI PowerPC Processor Supplement
    (chapter 4, "Relocation"), and the exact conditions under which elfLinkOne applies them. */
module Relocation {
  import opened Bits
  import opened Memory
  import opened ElfUtils

  // ----- the ABI's operators -----

  function Lo(x: word): half { x % 0x1_0000 }
  function Hi(x: word): half { x / 0x1_0000 }

  /** The high half adjusted for a low half that will be sign-extended. */
  function Ha(x: word): half { (x / 0x1_0000 + if x % 0x1_0000 >= 0x8000 then 1 else 0) % 0x1_0000 }

  /** A branch word with displacement d in place of its own. */
  function WithDisplacement24(w: word, d: int): word { w / 0x400_0000 * 0x400_0000 + d % 0x400_0000 / 4 * 4 + w % 4 }

  /** A conditional branch with displacement d; BO loses its bit 3. */
  function WithDisplacement14(w: word, d: int): word {
    (w / 0x80_0000 * 0x80 + w / 0x1_0000 % 0x40) * 0x1_0000 + d % 0x1_0000 / 4 * 4 + w % 4
  }

  /** The contents that a near relocation gives its field, from S + A, S + A - P and the old contents. */
  function Field(l: Link, was: seq<byte>): (r: seq<byte>)
    requires |was| == l.Width()
    ensures |r| == l.Width()
  {
    var x, rel := l.Value(), l.RelValue();
    if l.kind == R_PPC_ADDR32 || l.kind == R_PPC_DTPREL32 then WordBytes(x)
    else if l.kind == R_PPC_ADDR16_LO then HalfBytes(Lo(x))
    else if l.kind == R_PPC_ADDR16_HI then HalfBytes(Hi(x))
    else if l.kind == R_PPC_ADDR16_HA then HalfBytes(Ha(x))
    else if l.kind == R_PPC_GHS_REL16_LO then HalfBytes(Lo(rel))
    else if l.kind == R_PPC_GHS_REL16_HI then HalfBytes(Hi(rel))
    else if l.kind == R_PPC_GHS_REL16_HA then HalfBytes(Ha(rel))
    else if l.kind == R_PPC_REL14 then WordBytes(WithDisplacement14(WordOf(was), l.Distance()))
    else if l.kind == R_PPC_REL24 then WordBytes(WithDisplacement24(WordOf(was), l.Distance()))
    else was
  }

  predicate Supported(kind: byte) {
    kind == R_PPC_NONE || kind == R_PPC_DTPMOD32 || Link(kind, 0, 0, 0, 0).Width() > 0
  }

  /** Every near relocation this linker accepts. */
  predicate Linkable(l: Link) {
    && Supported(l.kind)
    && (l.kind == R_PPC_REL14 ==> -0x7FFC <= l.Distance() <= 0x7FFC)
    && (l.kind == R_PPC_REL14 || l.kind == R_PPC_REL24 ==> l.Distance() % 4 == 0)
  }

  // ----- the checks in front of the stores -----

  lemma SignedMod(d: sword)
    ensures And(W(d), 3) == d % 4
    ensures W(d) % 0x400_0000 == d % 0x400_0000
    ensures W(d) % 0x1_0000 == d % 0x1_0000
  {
    AndLow2(W(d));
    if d < 0 {
      assert W(d) == d + 0x1_0000_0000;
      Multiple4(0x4000_0000, d);
    }
  }

  lemma Patched24(w: word, d: sword)
    ensures Patch24(w, d) == WithDisplacement24(w, d)
  {
    hide And, Or;
    AndBranchFrame24(w);
    AndDisplacement24(W(d));
    OrBranch24(w / 0x400_0000, W(d) % 0x400_0000 / 4, w % 4);
    SignedMod(d);
  }

  lemma Patched14(w: word, d: sword)
    ensures Patch14(w, d) == WithDisplacement14(w, d)
  {
    hide And, Or;
    var q, t, r, l := w / 0x80_0000, w / 0x40_0000 % 2, w / 0x1_0000 % 0x40, w % 0x1_0000;
    SplitBranch14(w);
    AndBranchFrame14(q, t, r, l);
    AndDisplacement14(W(d));
    OrBranch14(q * 0x80 + r, W(d) % 0x1_0000 / 4, w % 4);
    SignedMod(d);
  }

  lemma SplitBranch14(w: word)
    ensures w == (w / 0x80_0000 * 0x80 + (w / 0x40_0000 % 2 * 0x40 + w / 0x1_0000 % 0x40)) * 0x1_0000 + w % 0x1_0000
    ensures w % 0x1_0000 % 4 == w % 4
  {
    var h := w / 0x1_0000;
    var g := h / 0x40;
    assert g == w / 0x40_0000 && g / 2 == w / 0x80_0000;
    LowBits(h, w % 0x1_0000);
  }

  /** The first two words of a stub load the two halves of the value into r11. */
  lemma LoadHighValue(v: word)
    ensures LoadHigh(v) == 0x3D60 * 0x1_0000 + v / 0x1_0000
  {
    hide And, Or;
    AndLow16(v / 0x1_0000);
    OrHalf(0x3D60, v / 0x1_0000);
  }

  lemma OrLowValue(v: word)
    ensures OrLow(v) == 0x616B * 0x1_0000 + v % 0x1_0000
  {
    hide And, Or;
    AndLow16(v);
    OrHalf(0x616B, v % 0x1_0000);
  }

  lemma SignBits24(d: sword)
    ensures d < 0 ==> (And(W(d), 0xFE000000) == 0xFE000000 <==> d >= -0x200_0000)
    ensures d >= 0 ==> (And(W(d), 0xFE000000) == 0 <==> d < 0x200_0000)
  {
    hide And;
    TopBits(W(d));
    assert W(d) == if d < 0 then d + 0x1_0000_0000 else d;
  }

  lemma TopBits(x: word)
    ensures And(x, 0xFE000000) == 0xFE000000 <==> x >= 0xFE000000
    ensures And(x, 0xFE000000) == 0 <==> x < 0x200_0000
  {
    hide And;
    AndTop7(x);
  }

  lemma SignBits14(d: sword)
    requires -0x7FFC <= d <= 0x7FFC
    ensures And(W(d), 0xFFFF8000) == if d < 0 then 0xFFFF8000 else 0
  {
    hide And;
    TopBits17(W(d));
    assert W(d) == if d < 0 then d + 0x1_0000_0000 else d;
  }

  lemma TopBits17(x: word)
    ensures x >= 0xFFFF8000 ==> And(x, 0xFFFF8000) == 0xFFFF8000
    ensures x < 0x8000 ==> And(x, 0xFFFF8000) == 0
  {
    hide And;
    AndTop17(x);
  }

  /** The alignment and sign checks accept exactly the aligned 26-bit displacements. */
  lemma BranchExact(m: Mem, target: word, d: sword)
    ensures PatchBranch(m, target, d) ==
            if d % 4 == 0 && -0x200_0000 <= d < 0x200_0000
            then Result(true, PutWord(m, target, WithDisplacement24(GetWord(m, target), d)))
            else Result(false, m)
  {
    SignedMod(d);
    SignBits24(d);
    Patched24(GetWord(m, target), d);
  }

  /** After the range check, the alignment check alone decides: the sign check never fires. */
  lemma Rel14Exact(m: Mem, l: Link)
    requires l.kind == R_PPC_REL14
    ensures LinkRel14(m, l) ==
            if Linkable(l)
            then Result(true, PutWord(m, l.Target(), WithDisplacement14(GetWord(m, l.Target()), l.Distance())))
            else Result(false, m)
  {
    var d := l.Distance();
    SignedMod(d);
    if -0x7FFC <= d <= 0x7FFC { SignBits14(d); }
    Patched14(GetWord(m, l.Target()), d);
  }

  lemma RoundedIsHa(x: word)
    ensures Rounded(x) == Ha(x)
  {
    var h, l := x / 0x1_0000, x % 0x1_0000;
    assert x + 0x8000 == h * 0x1_0000 + (l + 0x8000);
    if l >= 0x8000 {
      assert (x + 0x8000) / 0x1_0000 == h + 1;
    } else {
      assert (x + 0x8000) / 0x1_0000 == h;
    }
  }

  // ----- one relocation, as the ABI describes it -----

  lemma PutNothing(m: Mem, a: word)
    ensures PutBytes(m, a, []) == m && GetBytes(m, a, 0) == []
  {
    forall i: word ensures PutBytes(m, a, [])[i] == m[i] {}
  }

  /** The displacement through slot i is one a branch can hold. */
  predicate StubInReach(t: Table, i: nat, l: Link)
    requires t.InMemory() && i < t.length
  {
    StubDistance(t, i, l) % 4 == 0 && -0x200_0000 <= StubDistance(t, i, l) < 0x200_0000
  }

  /** The relocation l: its field takes the ABI's value, or, for a far branch, the first available slot
      becomes a stub and the field a branch to slot + A. Anything else is refused, and then memory is
      as it was unless a far branch had its slot filled already. */
  function Relocate(m: Mem, t: Table, l: Link, mark: word): Result
    requires t.InMemory()
  {
    if !l.Far() then
      if Linkable(l) then Result(true, PutBytes(m, l.Target(), Field(l, GetBytes(m, l.Target(), l.Width()))))
      else Result(false, m)
    else match ReachableSlot(m, t, l.Target())
      case None => Result(false, m)
      case Some(i) =>
        var m' := Occupy(m, t, i, l.Value(), mark);
        if StubInReach(t, i, l)
        then Result(true, PutWord(m', l.Target(), WithDisplacement24(GetWord(m', l.Target()), StubDistance(t, i, l))))
        else Result(false, m')
  }

  /** elfLinkOne does exactly that, for every relocation, table and memory. */
  lemma LinkOneIsRelocate(m: Mem, t: Table, l: Link, mark: word)
    requires t.InMemory()
    ensures LinkOne(m, t, l, mark) == Relocate(m, t, l, mark)
  {
    if l.kind == R_PPC_REL24 {
      Rel24IsRelocate(m, t, l, mark);
    } else {
      OtherIsRelocate(m, t, l, mark);
    }
  }

  lemma OtherIsRelocate(m: Mem, t: Table, l: Link, mark: word)
    requires t.InMemory() && l.kind != R_PPC_REL24
    ensures LinkOne(m, t, l, mark) == Relocate(m, t, l, mark)
  {
    RoundedIsHa(l.Value());
    RoundedIsHa(l.RelValue());
    if l.Width() == 0 { PutNothing(m, l.Target()); }
    if l.kind == R_PPC_REL14 { Rel14Exact(m, l); }
  }

  lemma Rel24IsRelocate(m: Mem, t: Table, l: Link, mark: word)
    requires t.InMemory() && l.kind == R_PPC_REL24
    ensures LinkRel24(m, t, l, mark) == Relocate(m, t, l, mark)
  {
    if !l.Far() {
      BranchExact(m, l.Target(), l.Distance());
    } else {
      var r := ReachableSlot(m, t, l.Target());
      if r.Some? {
        BranchExact(Occupy(m, t, r.value, l.Value(), mark), l.Target(), StubDistance(t, r.value, l));
      }
    }
  }

  /** With a zero addend the sign checks never fire: the branch links exactly when the first available
      slot lies at or below the place, within 0x1FFFFFC, and is congruent to it mod 4. */
  lemma FarLinkZeroAddend(m: Mem, t: Table, l: Link, mark: word)
    requires t.InMemory() && l.Far() && l.addend == 0
    ensures Relocate(m, t, l, mark).ok <==>
            var i := FindSlot(m, t, 0);
            t.base != 0 && i < t.length && Sub(l.Target(), t.Slot(i)) <= 0x1FFFFFC && (l.Target() - t.Slot(i)) % 4 == 0
  {
    var r := ReachableSlot(m, t, l.Target());
    if r.Some? { ZeroAddendInReach(t, r.value, l); }
  }

  lemma ZeroAddendInReach(t: Table, i: nat, l: Link)
    requires t.InMemory() && i < t.length && l.addend == 0 && Sub(l.Target(), t.Slot(i)) <= 0x1FFFFFC
    ensures StubInReach(t, i, l) <==> (l.Target() - t.Slot(i)) % 4 == 0
  {
    BackwardGap(l.Target(), t.Slot(i));
    assert W(t.Slot(i) + l.addend) == t.Slot(i);
  }

  lemma BackwardGap(p: word, slot: word)
    requires Sub(p, slot) <= 0x1FFFFFC
    ensures Signed(Sub(slot, p)) == 0 - Sub(p, slot)
    ensures Signed(Sub(slot, p)) % 4 == 0 <==> (p - slot) % 4 == 0
  {
    GapMod4(p, slot);
  }

  lemma GapMod4(x: word, y: word)
    ensures Sub(x, y) % 4 == (x - y) % 4
  {
    Multiple4(0x4000_0000, x - y);
  }
}

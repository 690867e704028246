/** elfLinkOne told in numbers: relocation types, thresholds and status words as the System V ABI and the
    program's headers number them, and addresses by arithmetic modulo 2^32. */
module RelocationNumbers {
  import opened Bits
  import opened Memory
  import opened ElfUtils
  import opened Relocation
  import opened LinkRun

  // ----- S + A, P and their difference -----

  function Place(l: Link): word { (l.destination as int + l.offset) % 0x1_0000_0000 }

  function Sum(l: Link): word { (l.symbolAddr + l.addend) % 0x1_0000_0000 }

  /** The residue of x modulo 2^32 between -2^31 and 2^31. */
  function Centred(x: int): int { (x + 0x8000_0000) % 0x1_0000_0000 - 0x8000_0000 }

  /** S + A - P as a signed number. */
  function Gap(l: Link): int { Centred(Sum(l) - Place(l)) }

  lemma LinkInNumbers(l: Link)
    ensures l.Target() == Place(l) && l.Value() == Sum(l) && l.Distance() == Gap(l)
    ensures l.RelValue() == (Sum(l) - Place(l)) % 0x1_0000_0000
  {
    SignedIsCentred(l.Value(), l.Target());
  }

  lemma SignedIsCentred(x: word, y: word)
    ensures Signed(Sub(x, y)) == Centred(x - y) && Sub(x, y) == (x - y) % 0x1_0000_0000
  {
  }

  // ----- when a branch needs a stub -----

  /** A 24-bit branch whose distance is at most 0x1FFFFFC either way is patched directly, whatever the table
      holds, exactly if it is word-aligned. */
  lemma NearRel24(m: Mem, t: Table, l: Link, mark: word)
    requires t.InMemory() && l.kind == 10 && -0x1FFFFFC <= Gap(l) <= 0x1FFFFFC
    ensures LinkOne(m, t, l, mark) ==
            if Gap(l) % 4 == 0
            then Result(true, PutWord(m, Place(l), WithDisplacement24(GetWord(m, Place(l)), Gap(l))))
            else Result(false, m)
  {
    hide WithDisplacement24, PutWord, GetWord, Place, Sum, Gap;
    LinkInNumbers(l);
    BranchExact(m, l.Target(), l.Distance());
  }

  /** Slot i has a status word of 0 or 3, and no earlier slot has. */
  predicate FirstSlot(m: Mem, t: Table, i: nat)
    requires t.InMemory()
  {
    && i < t.length && StatusWord(m, t, i) in {0, 3}
    && forall j: nat :: j < i ==> StatusWord(m, t, j) !in {0, 3}
  }

  /** The fifth word of entry i of a table of five-word entries, most significant byte first. */
  function StatusWord(m: Mem, t: Table, i: nat): nat
    requires t.InMemory() && i < t.length
  {
    var a := t.base + 20 * i + 16;
    ((m[a] as nat * 0x100 + m[a + 1]) * 0x100 + m[a + 2]) * 0x100 + m[a + 3]
  }

  lemma StatusIsWord(m: Mem, t: Table, i: nat)
    requires t.InMemory() && i < t.length
    ensures Status(m, t, i) == StatusWord(m, t, i)
    ensures Available(m, t, i) <==> StatusWord(m, t, i) in {0, 3}
  {
  }

  lemma FirstIsFound(m: Mem, t: Table, i: nat)
    requires t.InMemory() && FirstSlot(m, t, i)
    ensures FindSlot(m, t, 0) == i
  {
    hide StatusWord, Available;
    StatusIsWord(m, t, i);
    forall j: nat | j < t.length ensures Available(m, t, j)
        <==> StatusWord(m, t, j) in {0, 3} { StatusIsWord(m, t, j); }
  }

  lemma NoneIsFound(m: Mem, t: Table)
    requires t.InMemory() && forall j: nat :: j < t.length ==> StatusWord(m, t, j) !in {0, 3}
    ensures FindSlot(m, t, 0) == t.length
  {
    hide StatusWord, Available;
    forall j: nat | j < t.length ensures !Available(m, t, j) { StatusIsWord(m, t, j); }
  }

  /** Beyond that distance it is refused, and memory untouched, without a table, without a slot whose status
      is 0 or 3, and if the first such slot is not at most 0x1FFFFFC below the place. */
  lemma FarRel24Refused(m: Mem, t: Table, l: Link, mark: word)
    requires t.InMemory() && l.kind == 10 && !(-0x1FFFFFC <= Gap(l) <= 0x1FFFFFC)
    requires || t.base == 0
             || (forall j: nat :: j < t.length ==> StatusWord(m, t, j) !in {0, 3})
             || exists i: nat :: FirstSlot(m, t, i) && (Place(l) - (t.base + 20 * i)) % 0x1_0000_0000 > 0x1FFFFFC
    ensures LinkOne(m, t, l, mark) == Result(false, m)
  {
    hide StatusWord, Gap, Sum, PutWord, GetWord, Occupy, Place, FindSlot;
    LinkInNumbers(l);
    if t.base != 0 {
      if forall j: nat :: j < t.length ==> StatusWord(m, t, j) !in {0, 3} {
        NoneIsFound(m, t);
      } else {
        var i: nat :| FirstSlot(m, t, i) && (Place(l) - (t.base + 20 * i)) % 0x1_0000_0000 > 0x1FFFFFC;
        FirstIsFound(m, t, i);
        SignedIsCentred(Place(l), t.Slot(i));
      }
    }
  }

  /** Otherwise that slot is filled with the stub and its status, and the branch patched to slot + A if that
      is an aligned displacement of 26 bits; if not, the branch is refused with the slot filled. */
  lemma FarRel24Linked(m: Mem, t: Table, l: Link, mark: word, i: nat)
    requires t.InMemory() && l.kind == 10 && !(-0x1FFFFFC <= Gap(l) <= 0x1FFFFFC) && t.base != 0
    requires FirstSlot(m, t, i) && (Place(l) - (t.base + 20 * i)) % 0x1_0000_0000 <= 0x1FFFFFC
    ensures var slot: word := t.base + 20 * i;
            var m' := PutBytes(m, slot, StubBytes(Sum(l)) + WordBytes(mark));
            var d := Centred((slot + l.addend) % 0x1_0000_0000 - Place(l));
            LinkOne(m, t, l, mark) ==
            if d % 4 == 0 && -0x200_0000 <= d < 0x200_0000
            then Result(true, PutWord(m', Place(l), WithDisplacement24(GetWord(m', Place(l)), d)))
            else Result(false, m')
  {
    hide StatusWord, Gap, Sum, PutWord, GetWord, PutBytes, StubBytes, WordBytes, Place, FindSlot, WithDisplacement24,
         Centred, W, StubDistance, PatchBranch;
    LinkInNumbers(l);
    FirstIsFound(m, t, i);
    SignedIsCentred(Place(l), t.Slot(i));
    StubDistanceInNumbers(t, i, l);
    BranchExact(Occupy(m, t, i, Sum(l), mark), Place(l), StubDistance(t, i, l));
  }

  lemma StubDistanceInNumbers(t: Table, i: nat, l: Link)
    requires t.InMemory() && i < t.length
    ensures StubDistance(t, i, l) == Centred((t.base + 20 * i + l.addend) % 0x1_0000_0000 - Place(l))
  {
    hide Centred, Place, Sum, Gap;
    LinkInNumbers(l);
    SignedIsCentred(W(t.Slot(i) + l.addend), Place(l));
  }

  // ----- the other types -----

  /** Conditional branches (11) are patched exactly for aligned distances of at most 0x7FFC. */
  lemma Rel14InNumbers(m: Mem, t: Table, l: Link, mark: word)
    requires t.InMemory() && l.kind == 11
    ensures LinkOne(m, t, l, mark) ==
            if -0x7FFC <= Gap(l) <= 0x7FFC && Gap(l) % 4 == 0
            then Result(true, PutWord(m, Place(l), WithDisplacement14(GetWord(m, Place(l)), Gap(l))))
            else Result(false, m)
  {
    hide WithDisplacement14, PutWord, GetWord, Place, Sum, Gap;
    LinkInNumbers(l);
    Rel14Exact(m, l);
  }

  /** Half of x: the low 16 bits, the high 16 bits, or the high ones rounded. */
  function Low16(x: word): half { x % 0x1_0000 }
  function High16(x: word): half { x / 0x1_0000 }
  function Rounded16(x: word): half { (x as int + 0x8000) % 0x1_0000_0000 / 0x1_0000 }

  /** Types 1 and 78 store S + A as a word; 4, 5 and 6 its halves; 253, 252 and 251 those of S + A - P. */
  lemma DataInNumbers(m: Mem, t: Table, l: Link, mark: word)
    requires t.InMemory()
    ensures l.kind in {1, 78} ==> LinkOne(m, t, l, mark) == Result(true, PutWord(m, Place(l), Sum(l)))
    ensures l.kind == 4 ==> LinkOne(m, t, l, mark) == Result(true, PutHalf(m, Place(l), Low16(Sum(l))))
    ensures l.kind == 5 ==> LinkOne(m, t, l, mark) == Result(true, PutHalf(m, Place(l), High16(Sum(l))))
    ensures l.kind == 6 ==> LinkOne(m, t, l, mark) == Result(true, PutHalf(m, Place(l), Rounded16(Sum(l))))
    ensures var x := (Sum(l) - Place(l)) % 0x1_0000_0000;
            && (l.kind == 253 ==> LinkOne(m, t, l, mark) == Result(true, PutHalf(m, Place(l), Low16(x))))
            && (l.kind == 252 ==> LinkOne(m, t, l, mark) == Result(true, PutHalf(m, Place(l), High16(x))))
            && (l.kind == 251 ==> LinkOne(m, t, l, mark) == Result(true, PutHalf(m, Place(l), Rounded16(x))))
  {
    hide PutWord, PutHalf, Place, Sum, LinkRel14, LinkRel24;
    LinkInNumbers(l);
  }

  /** Types 0 and 68 do nothing; every type but these is refused. */
  lemma OthersInNumbers(m: Mem, t: Table, l: Link, mark: word)
    requires t.InMemory()
    ensures l.kind in {0, 68} ==> LinkOne(m, t, l, mark) == Result(true, m)
    ensures l.kind !in {0, 1, 4, 5, 6, 10, 11, 68, 78, 251, 252, 253} ==> LinkOne(m, t, l, mark) == Result(false, m)
  {
    hide PutWord, PutHalf, LinkRel14, LinkRel24;
  }

  /** The status that a filled slot is given: 1 by the link pass, 3 by the import phase. */
  lemma MarksInNumbers()
    ensures Mark(RELOC_TYPE_FIXED) == 1 && Mark(RELOC_TYPE_IMPORT) == 3
  {
  }

  // ----- the words -----

  /** A word is stored most significant byte first. */
  lemma StoredBytes(m: Mem, a: word, w: word)
    requires a + 4 <= 0x1_0000_0000
    ensures var m' := PutWord(m, a, w);
            && m'[a] == w / 0x100_0000 && m'[a + 1] == w / 0x1_0000 % 0x100
            && m'[a + 2] == w / 0x100 % 0x100 && m'[a + 3] == w % 0x100
    ensures forall b: word :: b < a || a + 4 <= b ==> PutWord(m, a, w)[b] == m[b]
    ensures GetWord(m, a) == ((m[a] as nat * 0x100 + m[a + 1]) * 0x100 + m[a + 2]) * 0x100 + m[a + 3]
  {
  }

  lemma StoredHalf(m: Mem, a: word, h: half)
    requires a + 2 <= 0x1_0000_0000
    ensures PutHalf(m, a, h)[a] == h / 0x100 && PutHalf(m, a, h)[a + 1] == h % 0x100
    ensures forall b: word :: b < a || a + 2 <= b ==> PutHalf(m, a, h)[b] == m[b]
  {
  }

  /** `b` 0x100 bytes ahead, `bl` 4 bytes back; `beq` 8 bytes ahead, `bdnz` 4 bytes back. */
  lemma PatchedWords()
    ensures WithDisplacement24(0x4800_0000, 0x100) == 0x4800_0100 && WithDisplacement24(0x4800_0001, -4) == 0x4BFF_FFFD
    ensures WithDisplacement14(0x4182_0000, 8) == 0x4182_0008 && WithDisplacement14(0x4200_0000, -4) == 0x4200_FFFC
  {
  }
}

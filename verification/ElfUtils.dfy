/** Applying one relocation to the loaded image: elfLinkOne. */
module ElfUtils {
  import opened Bits
  import opened Memory
  import opened Wrappers

  const R_PPC_NONE: byte := 0
  const R_PPC_ADDR32: byte := 1
  const R_PPC_ADDR16_LO: byte := 4
  const R_PPC_ADDR16_HI: byte := 5
  const R_PPC_ADDR16_HA: byte := 6
  const R_PPC_REL24: byte := 10
  const R_PPC_REL14: byte := 11
  const R_PPC_DTPMOD32: byte := 68
  const R_PPC_DTPREL32: byte := 78
  const R_PPC_GHS_REL16_HA: byte := 251
  const R_PPC_GHS_REL16_HI: byte := 252
  const R_PPC_GHS_REL16_LO: byte := 253

  const RELOC_TRAMP_FREE: word := 0
  const RELOC_TRAMP_FIXED: word := 1
  const RELOC_TRAMP_IMPORT_IN_PROGRESS: word := 2
  const RELOC_TRAMP_IMPORT_DONE: word := 3

  datatype RelocationType = RELOC_TYPE_FIXED | RELOC_TYPE_IMPORT

  /** One relocation: the patched place is destination + offset, the symbol is at symbolAddr. */
  datatype Link = Link(kind: byte, offset: word, addend: sword, destination: word, symbolAddr: word) {
    /** P, the place. */
    function Target(): word { Plus(destination, offset) }

    /** S + A. */
    function Value(): word { W(symbolAddr + addend) }

    /** S + A - P, as an unsigned and as a signed word. */
    function RelValue(): word { Sub(Value(), Target()) }
    function Distance(): sword { Signed(RelValue()) }

    /** A branch that a 24-bit displacement cannot span. */
    predicate Far() { kind == R_PPC_REL24 && (Distance() > 0x1FFFFFC || Distance() < -0x1FFFFFC) }

    /** The number of bytes at the place that belong to the relocation. */
    function Width(): nat {
      if kind == R_PPC_ADDR32 || kind == R_PPC_DTPREL32 || kind == R_PPC_REL14 || kind == R_PPC_REL24 then 4
      else if kind == R_PPC_ADDR16_LO || kind == R_PPC_ADDR16_HI || kind == R_PPC_ADDR16_HA ||
              kind == R_PPC_GHS_REL16_HA || kind == R_PPC_GHS_REL16_HI || kind == R_PPC_GHS_REL16_LO then 2
      else 0
    }
  }

  /** The trampoline table: `length` entries of five words at `base`; a base of 0 is the null pointer.
      Four words of an entry hold the stub, the fifth its status. */
  datatype Table = Table(base: word, length: nat) {
    predicate InMemory() { base + 20 * length <= 0x1_0000_0000 }

    function Slot(i: nat): word
      requires InMemory() && i < length
    {
      base + 20 * i
    }

    /** The bytes of the whole table. */
    predicate Covers(a: word) { base <= a < base + 20 * length }
  }

  function Status(m: Mem, t: Table, i: nat): word
    requires t.InMemory() && i < t.length
  {
    GetWord(m, t.Slot(i) + 16)
  }

  predicate Available(m: Mem, t: Table, i: nat)
    requires t.InMemory() && i < t.length
  {
    Status(m, t, i) == RELOC_TRAMP_FREE || Status(m, t, i) == RELOC_TRAMP_IMPORT_DONE
  }

  /** The first available slot from i on, or t.length. */
  function FindSlot(m: Mem, t: Table, i: nat): (r: nat)
    requires t.InMemory() && i <= t.length
    ensures i <= r <= t.length
    ensures r < t.length ==> Available(m, t, r)
    ensures forall j: nat :: i <= j < r ==> !Available(m, t, j)
    decreases t.length - i
  {
    if i == t.length || Available(m, t, i) then i else FindSlot(m, t, i + 1)
  }

  /** lis r11, value@h; ori r11, r11, value@l; mtctr r11; bctr */
  function Stub(value: word): (r: seq<word>)
    ensures |r| == 4
  {
    [LoadHigh(value), OrLow(value), 0x7D6903A6, 0x4E800420]
  }

  function LoadHigh(value: word): word { OrWord(0x3D600000, AndWord(value / 0x1_0000, 0x0000FFFF)) }

  function OrLow(value: word): word { OrWord(0x616B0000, AndWord(value, 0x0000ffff)) }

  function StubBytes(value: word): (r: seq<byte>)
    ensures |r| == 16
  {
    var s := Stub(value);
    WordBytes(s[0]) + WordBytes(s[1]) + WordBytes(s[2]) + WordBytes(s[3])
  }

  /** Slot i filled with a stub for `value` and marked. */
  function Occupy(m: Mem, t: Table, i: nat, value: word, mark: word): Mem
    requires t.InMemory() && i < t.length
  {
    PutBytes(m, t.Slot(i), StubBytes(value) + WordBytes(mark))
  }

  // ----- the branch fields -----

  function Patch24(w: word, distance: sword): word {
    OrWord(AndWord(w, 0xfc000003), AndWord(W(distance), 0x03fffffc))
  }

  function Patch14(w: word, distance: sword): word {
    OrWord(AndWord(w, 0xFFBF0003), AndWord(W(distance), 0x0000fffc))
  }

  // ----- elfLinkOne as a function of the memory image -----

  /** The upper half of x + 0x8000. */
  function Rounded(x: word): half { W(x as int + 0x8000) / 0x1_0000 }

  datatype Result = Result(ok: bool, mem: Mem)

  /** The alignment and sign checks in front of the final store of a 24-bit branch, and the store. */
  function PatchBranch(m: Mem, target: word, distance: sword): Result {
    if AndWord(W(distance), 3) != 0 then Result(false, m)
    else if distance < 0 && AndWord(W(distance), 0xFE000000) != 0xFE000000 then Result(false, m)
    else if distance >= 0 && AndWord(W(distance), 0xFE000000) != 0 then Result(false, m)
    else Result(true, PutWord(m, target, Patch24(GetWord(m, target), distance)))
  }

  /** The slot a far branch is given, if its place can reach one. */
  function ReachableSlot(m: Mem, t: Table, target: word): (r: Option<nat>)
    requires t.InMemory()
    ensures r.Some? ==> r.value < t.length
  {
    if t.base == 0 then None
    else
      var i := FindSlot(m, t, 0);
      if i == t.length || Sub(target, t.Slot(i)) > 0x1FFFFFC then None else Some(i)
  }

  /** The displacement of a far branch through slot i. */
  function StubDistance(t: Table, i: nat, l: Link): sword
    requires t.InMemory() && i < t.length
  {
    Signed(Sub(W(t.Slot(i) + l.addend), l.Target()))
  }

  /** A 24-bit branch; `mark` is the status that an occupied slot is given. */
  function LinkRel24(m: Mem, t: Table, l: Link, mark: word): Result
    requires t.InMemory()
  {
    if !l.Far() then PatchBranch(m, l.Target(), l.Distance())
    else match ReachableSlot(m, t, l.Target())
      case None => Result(false, m)
      case Some(i) => PatchBranch(Occupy(m, t, i, l.Value(), mark), l.Target(), StubDistance(t, i, l))
  }

  function LinkRel14(m: Mem, l: Link): Result {
    var target, distance := l.Target(), l.Distance();
    var d := W(distance);
    if distance > 0x7FFC || distance < -0x7FFC then Result(false, m)
    else if AndWord(d, 3) != 0 then Result(false, m)
    else if (distance >= 0 && AndWord(d, 0xFFFF8000) != 0)
        || (distance < 0 && AndWord(d, 0xFFFF8000) != 0xFFFF8000) then
      Result(false, m)
    else Result(true, PutWord(m, target, Patch14(GetWord(m, target), distance)))
  }

  function LinkOne(m: Mem, t: Table, l: Link, mark: word): Result
    requires t.InMemory()
  {
    var target, value, rel := l.Target(), l.Value(), l.RelValue();
    if l.kind == R_PPC_NONE || l.kind == R_PPC_DTPMOD32 then Result(true, m)
    else if l.kind == R_PPC_ADDR32 || l.kind == R_PPC_DTPREL32 then Result(true, PutWord(m, target, value))
    else if l.kind == R_PPC_ADDR16_LO then Result(true, PutHalf(m, target, value % 0x1_0000))
    else if l.kind == R_PPC_ADDR16_HI then Result(true, PutHalf(m, target, value / 0x1_0000))
    else if l.kind == R_PPC_ADDR16_HA then Result(true, PutHalf(m, target, Rounded(value)))
    else if l.kind == R_PPC_GHS_REL16_HA then Result(true, PutHalf(m, target, Rounded(rel)))
    else if l.kind == R_PPC_GHS_REL16_HI then Result(true, PutHalf(m, target, rel / 0x1_0000))
    else if l.kind == R_PPC_GHS_REL16_LO then Result(true, PutHalf(m, target, rel % 0x1_0000))
    else if l.kind == R_PPC_REL14 then LinkRel14(m, l)
    else if l.kind == R_PPC_REL24 then LinkRel24(m, t, l, mark)
    else Result(false, m)
  }

  function Mark(r: RelocationType): word {
    if r == RELOC_TYPE_FIXED then RELOC_TRAMP_FIXED else RELOC_TRAMP_IMPORT_DONE
  }

  // ----- elfLinkOne as it patches memory -----

  method FindFreeSlot(mem: array<byte>, t: Table) returns (i: nat)
    requires mem.Length == 0x1_0000_0000 && t.InMemory()
    ensures i == FindSlot(mem[..], t, 0)
  {
    i := 0;
    while i < t.length
      invariant i <= t.length && FindSlot(mem[..], t, i) == FindSlot(mem[..], t, 0)
    {
      var status := LoadWord(mem, t.Slot(i) + 16);
      if status == RELOC_TRAMP_FREE || status == RELOC_TRAMP_IMPORT_DONE { return; }
      i := i + 1;
    }
  }

  method FillSlot(mem: array<byte>, t: Table, i: nat, value: word, mark: word)
    requires mem.Length == 0x1_0000_0000 && t.InMemory() && i < t.length
    modifies mem
    ensures mem[..] == Occupy(old(mem[..]), t, i, value, mark)
  {
    ghost var m, a, s := mem[..], t.Slot(i), Stub(value);
    StoreWord(mem, t.Slot(i), LoadHigh(value));
    StoreWord(mem, t.Slot(i) + 4, OrLow(value));
    PutAppend(m, a, WordBytes(s[0]), WordBytes(s[1]));
    StoreWord(mem, t.Slot(i) + 8, 0x7D6903A6);
    PutAppend(m, a, WordBytes(s[0]) + WordBytes(s[1]), WordBytes(s[2]));
    StoreWord(mem, t.Slot(i) + 12, 0x4E800420);
    PutAppend(m, a, WordBytes(s[0]) + WordBytes(s[1]) + WordBytes(s[2]), WordBytes(s[3]));
    StoreWord(mem, t.Slot(i) + 16, mark);
    PutAppend(m, a, StubBytes(value), WordBytes(mark));
  }

  method ElfLinkOne(mem: array<byte>, t: Table, l: Link, relocType: RelocationType) returns (ok: bool)
    requires mem.Length == 0x1_0000_0000 && t.InMemory()
    modifies mem
    ensures Result(ok, mem[..]) == LinkOne(old(mem[..]), t, l, Mark(relocType))
  {
    if l.kind == R_PPC_NONE { return true; }
    var target, value, relValue := l.Target(), l.Value(), l.RelValue();
    if l.kind == R_PPC_ADDR32 || l.kind == R_PPC_DTPREL32 {
      StoreWord(mem, target, value);
    } else if l.kind == R_PPC_ADDR16_LO {
      AndLow16(value);
      StoreHalf(mem, target, AndWord(value, 0xFFFF));
    } else if l.kind == R_PPC_ADDR16_HI {
      StoreHalf(mem, target, value / 0x1_0000);
    } else if l.kind == R_PPC_ADDR16_HA {
      StoreHalf(mem, target, Rounded(value));
    } else if l.kind == R_PPC_DTPMOD32 {
    } else if l.kind == R_PPC_GHS_REL16_HA {
      StoreHalf(mem, target, Rounded(relValue));
    } else if l.kind == R_PPC_GHS_REL16_HI {
      StoreHalf(mem, target, relValue / 0x1_0000);
    } else if l.kind == R_PPC_GHS_REL16_LO {
      AndLow16(relValue);
      StoreHalf(mem, target, AndWord(relValue, 0xFFFF));
    } else if l.kind == R_PPC_REL14 {
      ok := ElfLinkRel14(mem, l);
      return;
    } else if l.kind == R_PPC_REL24 {
      ok := ElfLinkRel24(mem, t, l, relocType);
      return;
    } else {
      return false;
    }
    ok := true;
  }

  method ElfLinkRel14(mem: array<byte>, l: Link) returns (ok: bool)
    requires mem.Length == 0x1_0000_0000
    modifies mem
    ensures Result(ok, mem[..]) == LinkRel14(old(mem[..]), l)
  {
    var target, distance := l.Target(), l.Distance();
    if distance > 0x7FFC || distance < -0x7FFC { return false; }
    if AndWord(W(distance), 3) != 0 { return false; }
    if (distance >= 0 && AndWord(W(distance), 0xFFFF8000) != 0) ||
       (distance < 0 && AndWord(W(distance), 0xFFFF8000) != 0xFFFF8000) {
      return false;
    }
    var w := LoadWord(mem, target);
    StoreWord(mem, target, Patch14(w, distance));
    ok := true;
  }

  method ElfLinkRel24(mem: array<byte>, t: Table, l: Link, relocType: RelocationType) returns (ok: bool)
    requires mem.Length == 0x1_0000_0000 && t.InMemory() && l.kind == R_PPC_REL24
    modifies mem
    ensures Result(ok, mem[..]) == LinkRel24(old(mem[..]), t, l, Mark(relocType))
  {
    var distance := l.Distance();
    if distance > 0x1FFFFFC || distance < -0x1FFFFFC {
      if t.base == 0 { return false; }
      var i := FindFreeSlot(mem, t);
      if i == t.length || Sub(l.Target(), t.Slot(i)) > 0x1FFFFFC { return false; }
      FillSlot(mem, t, i, l.Value(), Mark(relocType));
      distance := StubDistance(t, i, l);
    }
    ok := StoreBranch(mem, l.Target(), distance);
  }

  method StoreBranch(mem: array<byte>, target: word, distance: sword) returns (ok: bool)
    requires mem.Length == 0x1_0000_0000
    modifies mem
    ensures Result(ok, mem[..]) == PatchBranch(old(mem[..]), target, distance)
  {
    if AndWord(W(distance), 3) != 0 { return false; }
    if distance < 0 && AndWord(W(distance), 0xFE000000) != 0xFE000000 { return false; }
    if distance >= 0 && AndWord(W(distance), 0xFE000000) != 0 { return false; }
    var w := LoadWord(mem, target);
    StoreWord(mem, target, Patch24(w, distance));
    ok := true;
  }
}

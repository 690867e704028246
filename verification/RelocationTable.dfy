/** Relocation entries as bytes of a section: get_entry, set_entry and swap_symbols, for REL and RELA sections
    of files of either class and either byte order. */
module RelocationTable {
  import opened Bits
  import opened Fields
  import opened SectionData
  import opened Records

  // ----- r_info -----

  /** ELF32_R_INFO is kept in 32 bits, ELF64_R_INFO in 64. */
  function RInfo(c: Class, symbol: word, kind: word): dword {
    match c
    case ELFCLASS32 => W(symbol as int * 0x100 + kind % 0x100)
    case ELFCLASS64 => symbol as int * 0x1_0000_0000 + kind
  }

  function RSym(c: Class, info: dword): word {
    match c case ELFCLASS32 => W(info) / 0x100 case ELFCLASS64 => info / 0x1_0000_0000
  }

  function RType(c: Class, info: dword): word {
    match c case ELFCLASS32 => info % 0x100 case ELFCLASS64 => info % 0x1_0000_0000
  }

  /** Packing and unpacking are inverse exactly for the symbol indices that the class has room for. */
  lemma PackExact(c: Class, symbol: word, kind: word)
    ensures RSym(c, RInfo(c, symbol, kind)) == symbol <==> (c == ELFCLASS32 ==> symbol < 0x100_0000)
    ensures RType(c, RInfo(c, symbol, kind)) == if c == ELFCLASS32 then kind % 0x100 else kind
    ensures c == ELFCLASS32 ==> RInfo(c, symbol, kind) < 0x1_0000_0000
  {
    if c == ELFCLASS32 {
      var q, s := symbol / 0x100_0000, symbol % 0x100_0000;
      var x := s * 0x100 + kind % 0x100;
      assert symbol as int * 0x100 + kind % 0x100 == q * 0x1_0000_0000 + x;
      assert W(q * 0x1_0000_0000 + x) == x;
      assert x / 0x100 == s && x % 0x100 == kind % 0x100;
    }
  }

  // ----- entries -----

  /** An entry of a REL or RELA section; a REL entry has addend 0. */
  datatype RelEntry = RelEntry(offset: dword, info: dword, addend: int)

  /** The encoding of a relocation section, and whether it is RELA. */
  datatype Format = Format(enc: Encoding, rela: bool) {
    function Size(): (n: nat)
      ensures n > 0
    {
      if rela then 3 * enc.Width() else 2 * enc.Width()
    }
  }

  predicate FitsFormat(f: Format, e: RelEntry) {
    && e.offset < f.enc.Limit() && e.info < f.enc.Limit()
    && InRange(f.enc, e.addend) && (!f.rela ==> e.addend == 0)
  }

  function EntryBytes(f: Format, e: RelEntry): (r: seq<byte>)
    ensures |r| == f.Size()
  {
    WideField(f.enc, e.offset) + WideField(f.enc, e.info)
    + if f.rela then WideField(f.enc, Unsigned(f.enc, e.addend)) else []
  }

  function ReadEntry(f: Format, bs: seq<byte>): (e: RelEntry)
    requires |bs| == f.Size()
    ensures FitsFormat(f, e)
  {
    hide ReadWideField, SignedOf;
    var w := f.enc.Width();
    RelEntry(ReadWideField(f.enc, bs[..w]), ReadWideField(f.enc, bs[w..2 * w]),
             if f.rela then SignedOf(f.enc, ReadWideField(f.enc, bs[2 * w..])) else 0)
  }

  /** What is written is read back. */
  lemma EntryRoundTrip(f: Format, e: RelEntry)
    requires FitsFormat(f, e)
    ensures ReadEntry(f, EntryBytes(f, e)) == e
  {
    hide WideField, ReadWideField, Unsigned, SignedOf;
    var bs, w := EntryBytes(f, e), f.enc.Width();
    assert bs[..w] == WideField(f.enc, e.offset) && bs[w..2 * w] == WideField(f.enc, e.info);
    WideFieldReads(f.enc, e.offset);
    WideFieldReads(f.enc, e.info);
    if f.rela {
      assert bs[2 * w..] == WideField(f.enc, Unsigned(f.enc, e.addend));
      SignedReads(f.enc, e.addend);
      WideFieldReads(f.enc, Unsigned(f.enc, e.addend));
    }
  }

  /** Entry i of a section with contents s. */
  function EntryAt(f: Format, s: seq<byte>, i: nat): (e: RelEntry)
    requires i < Count(s, f.Size())
    ensures FitsFormat(f, e)
  {
    ReadEntry(f, Record(s, f.Size(), i))
  }

  /** All entries of a section. */
  function Entries(f: Format, s: seq<byte>): (r: seq<RelEntry>)
    ensures |r| == Count(s, f.Size())
    ensures forall k :: 0 <= k < |r| ==> FitsFormat(f, r[k])
  {
    seq(Count(s, f.Size()), (k: nat) requires k < Count(s, f.Size()) => EntryAt(f, s, k))
  }

  lemma EntriesOfReplaced(f: Format, s: seq<byte>, i: nat, e: RelEntry)
    requires i < Count(s, f.Size()) && FitsFormat(f, e)
    ensures Entries(f, Replaced(s, f.Size(), i, EntryBytes(f, e))) == Entries(f, s)[i := e]
  {
    hide Record, Replaced, EntryBytes, ReadEntry, FitsFormat;
    var t := Replaced(s, f.Size(), i, EntryBytes(f, e));
    EntryRoundTrip(f, e);
    forall k | 0 <= k < Count(s, f.Size()) ensures Entries(f, t)[k] == Entries(f, s)[i := e][k] {
      RecordOfReplaced(s, f.Size(), i, EntryBytes(f, e), k);
    }
  }

  // ----- get_entry and set_entry -----

  /** What get_entry and set_entry do: they deliver or replace an entry, refuse, or leave the section. */
  datatype Access = Entry(entry: RelEntry) | Refused | OutOfBounds

  /** Entry i of a section whose header gives the entry size: no entries if it is 0. */
  function EntryRead(f: Format, s: seq<byte>, entSize: nat, i: nat): Access {
    if entSize == 0 || i >= |s| / entSize then Refused
    else if i * entSize + f.Size() > |s| then OutOfBounds
    else Entry(ReadEntry(f, s[i * entSize..i * entSize + f.Size()]))
  }

  /** With the size of the structure it is one of the entries, and with a greater size it stays inside. */
  lemma EntryReadExact(f: Format, s: seq<byte>, entSize: nat, i: nat)
    ensures entSize == f.Size() ==>
              EntryRead(f, s, entSize, i) == if i < Count(s, f.Size()) then Entry(Entries(f, s)[i]) else Refused
    ensures entSize >= f.Size() ==> EntryRead(f, s, entSize, i) != OutOfBounds
  {
    hide ReadEntry;
    if entSize > 0 && i < |s| / entSize { Inside(s, entSize, i); }
  }

  method GetEntry(section: SectionBuffer, f: Format, entSize: nat, i: nat) returns (r: Access)
    requires section.Valid()
    ensures r == EntryRead(f, section.Contents(), entSize, i)
  {
    hide ReadEntry;
    if entSize == 0 || i >= section.size / entSize { return Refused; }
    if i * entSize + f.Size() > section.size { return OutOfBounds; }
    var bs := ReadBytes(section, i * entSize, f.Size());
    r := Entry(ReadEntry(f, bs));
  }

  /** The entry that set_entry writes: the offset and the addend cut to the class, no addend in REL. */
  function MadeEntry(f: Format, offset: dword, symbol: word, kind: word, addend: int): (e: RelEntry)
    ensures FitsFormat(f, e)
  {
    hide SignedOf;
    PackExact(f.enc.elfClass, symbol, kind);
    RelEntry(offset % f.enc.Limit(), RInfo(f.enc.elfClass, symbol, kind),
             if f.rela then SignedOf(f.enc, Unsigned(f.enc, addend)) else 0)
  }

  method SetEntry(section: SectionBuffer, f: Format, entSize: nat, i: nat,
                  offset: dword, symbol: word, kind: word, addend: int) returns (r: Access)
    requires section.Valid()
    modifies section.data
    ensures section.Contents() ==
            if EntryRead(f, old(section.Contents()), entSize, i).Entry?
            then Overwritten(old(section.Contents()), i * entSize,
                EntryBytes(f, MadeEntry(f, offset, symbol, kind, addend)))
            else old(section.Contents())
    ensures r == match EntryRead(f, old(section.Contents()), entSize, i)
                 case Entry(_) => Entry(MadeEntry(f, offset, symbol, kind, addend))
                 case other => other
    ensures entSize == f.Size() && i < Count(old(section.Contents()), f.Size()) ==>
              Entries(f, section.Contents())
              == Entries(f, old(section.Contents()))[i := MadeEntry(f, offset, symbol, kind, addend)]
  {
    hide EntryBytes, Entries, MadeEntry, ReadEntry;
    if entSize == 0 || i >= section.size / entSize { return Refused; }
    EntryReadExact(f, section.Contents(), entSize, i);
    if i * entSize + f.Size() > section.size { return OutOfBounds; }
    var e := MadeEntry(f, offset, symbol, kind, addend);
    if entSize == f.Size() { EntriesOfReplaced(f, section.Contents(), i, e); }
    WriteBytes(section, i * entSize, EntryBytes(f, e));
    r := Entry(e);
  }

  // ----- swap_symbols -----

  /** An entry with a new symbol and everything else as it was. */
  function WithSymbol(c: Class, e: RelEntry, symbol: word): RelEntry {
    e.(info := RInfo(c, symbol, RType(c, e.info)))
  }

  function SwapOne(c: Class, e: RelEntry, first: word, second: word): RelEntry {
    if RSym(c, e.info) == second then WithSymbol(c, e, first)
    else if RSym(c, e.info) == first then WithSymbol(c, e, second)
    else e
  }

  /** Setting an entry to what get_entry gave, but for the symbol. */
  lemma MadeWithSymbol(f: Format, e: RelEntry, symbol: word)
    requires FitsFormat(f, e)
    ensures MadeEntry(f, e.offset, symbol, RType(f.enc.elfClass, e.info), e.addend)
            == WithSymbol(f.enc.elfClass, e, symbol)
  {
    hide RInfo, RType, Unsigned, SignedOf;
    SignedReads(f.enc, e.addend);
  }

  function SwapAll(c: Class, r: seq<RelEntry>, first: word, second: word): seq<RelEntry> {
    seq(|r|, (k: nat) requires k < |r| => SwapOne(c, r[k], first, second))
  }

  /** The entries before i swapped, the others not. */
  function SwapSome(c: Class, r: seq<RelEntry>, first: word, second: word, i: nat): (t: seq<RelEntry>)
    requires i <= |r|
    ensures |t| == |r|
  {
    SwapAll(c, r[..i], first, second) + r[i..]
  }

  lemma SwapNext(c: Class, r: seq<RelEntry>, first: word, second: word, i: nat)
    requires i < |r|
    ensures SwapSome(c, r, first, second, i)[i] == r[i]
    ensures SwapSome(c, r, first, second, i + 1)
            == SwapSome(c, r, first, second, i)[i := SwapOne(c, r[i], first, second)]
  {
    hide SwapOne;
    var s, t := SwapSome(c, r, first, second, i), SwapSome(c, r, first, second, i + 1);
    forall k | 0 <= k < |r| ensures t[k] == s[i := SwapOne(c, r[i], first, second)][k] {
    }
  }

  /** The body of the loop: one entry. */
  method SwapEntry(section: SectionBuffer, f: Format, i: nat, first: word, second: word)
    requires section.Valid() && i < Count(section.Contents(), f.Size())
    modifies section.data
    ensures |section.Contents()| == |old(section.Contents())|
    ensures var r := Entries(f, old(section.Contents()));
            Entries(f, section.Contents()) == r[i := SwapOne(f.enc.elfClass, r[i], first, second)]
  {
    hide Entries, RSym, RType, MadeEntry, WithSymbol, FitsFormat, EntryRead, EntryBytes;
    ghost var r := Entries(f, section.Contents());
    EntryReadExact(f, section.Contents(), f.Size(), i);
    var got := GetEntry(section, f, f.Size(), i);
    var e := got.entry;
    var symbol, kind := RSym(f.enc.elfClass, e.info), RType(f.enc.elfClass, e.info);
    MadeWithSymbol(f, e, first);
    MadeWithSymbol(f, e, second);
    if symbol == first { EntrySet(section, f, i, e.offset, second, kind, e.addend); }
    if symbol == second { EntrySet(section, f, i, e.offset, first, kind, e.addend); }
  }

  /** set_entry with the structure's entry size, at an index inside the section. */
  method EntrySet(section: SectionBuffer, f: Format, i: nat, offset: dword, symbol: word, kind: word, addend: int)
    requires section.Valid() && i < Count(section.Contents(), f.Size())
    modifies section.data
    ensures |section.Contents()| == |old(section.Contents())|
    ensures Entries(f, section.Contents()) ==
            Entries(f, old(section.Contents()))[i := MadeEntry(f, offset, symbol, kind, addend)]
  {
    hide Entries, MadeEntry, EntryRead, EntryBytes;
    var r := SetEntry(section, f, f.Size(), i, offset, symbol, kind, addend);
  }

  /** Every entry naming one of the two symbols is made to name the other, in the section's bytes. */
  method SwapSymbols(section: SectionBuffer, f: Format, first: word, second: word)
    requires section.Valid()
    modifies section.data
    ensures |section.Contents()| == |old(section.Contents())|
    ensures Entries(f, section.Contents())
            == SwapAll(f.enc.elfClass, Entries(f, old(section.Contents())), first, second)
  {
    hide SwapSome, Entries, SwapAll, SwapOne;
    ghost var c, r0 := f.enc.elfClass, Entries(f, section.Contents());
    SwapNone(c, r0, first, second);
    var n := section.size / f.Size();
    for i := 0 to n
      invariant |section.Contents()| == |old(section.Contents())|
      invariant Entries(f, section.Contents()) == SwapSome(c, r0, first, second, i)
    {
      SwapNext(c, r0, first, second, i);
      SwapEntry(section, f, i, first, second);
    }
    SwapEvery(c, r0, first, second);
  }

  lemma SwapNone(c: Class, r: seq<RelEntry>, first: word, second: word)
    ensures SwapSome(c, r, first, second, 0) == r
  {
  }

  lemma SwapEvery(c: Class, r: seq<RelEntry>, first: word, second: word)
    ensures SwapSome(c, r, first, second, |r|) == SwapAll(c, r, first, second)
  {
    assert r[..|r|] == r;
  }
}

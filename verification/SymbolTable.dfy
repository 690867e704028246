/** Symbol entries as bytes of a section: add_symbol and get_symbol by index, for files of either class and
    either byte order, together with the string table that holds the names. */
module SymbolTable {
  import opened Bits
  import opened Wrappers
  import opened Hashing
  import opened Fields
  import opened ElfFile
  import opened SectionData
  import opened Records
  import opened StringTable

  datatype Sym = Sym(name: word, value: dword, size: dword, info: byte, other: byte, shndx: half) {
    predicate Local() { info / 16 == 0 }
  }

  /** 32-bit files have 32-bit values and sizes. */
  predicate FitsSym(e: Encoding, s: Sym) { s.value < e.Limit() && s.size < e.Limit() }

  function EntrySize(e: Encoding): (n: nat)
    ensures n > 0
  {
    if e.elfClass == ELFCLASS32 then 16 else 24
  }

  /** An Elf32_Sym or an Elf64_Sym, its fields converted to the file's byte order. */
  function SymBytes(e: Encoding, s: Sym): (r: seq<byte>)
    ensures |r| == EntrySize(e)
  {
    if e.elfClass == ELFCLASS32 then
      WordField(e, s.name) + WideField(e, s.value) + WideField(e, s.size) + [s.info, s.other] + HalfField(e, s.shndx)
    else
      WordField(e, s.name) + [s.info, s.other] + HalfField(e, s.shndx) + WideField(e, s.value) + WideField(e, s.size)
  }

  function ReadSym(e: Encoding, bs: seq<byte>): (s: Sym)
    requires |bs| == EntrySize(e)
    ensures FitsSym(e, s)
  {
    if e.elfClass == ELFCLASS32 then
      Sym(ReadWordField(e, bs[0..4]), ReadWideField(e, bs[4..8]), ReadWideField(e, bs[8..12]),
          bs[12], bs[13], ReadHalfField(e, bs[14..16]))
    else
      Sym(ReadWordField(e, bs[0..4]), ReadWideField(e, bs[8..16]), ReadWideField(e, bs[16..24]),
          bs[4], bs[5], ReadHalfField(e, bs[6..8]))
  }

  /** Symbol i of a table with contents s. */
  function SymAt(e: Encoding, s: seq<byte>, i: nat): Option<Sym> {
    if i < Count(s, EntrySize(e)) then Some(ReadSym(e, Record(s, EntrySize(e), i))) else None
  }

  lemma SymRoundTrip(e: Encoding, s: Sym)
    requires FitsSym(e, s)
    ensures ReadSym(e, SymBytes(e, s)) == s
  {
    hide WordField, HalfField, WideField, ReadWordField, ReadHalfField, ReadWideField;
    var bs := SymBytes(e, s);
    WordFieldReads(e, s.name);
    WideFieldReads(e, s.value);
    WideFieldReads(e, s.size);
    HalfFieldReads(e, s.shndx);
    if e.elfClass == ELFCLASS32 {
      assert bs[0..4] == WordField(e, s.name) && bs[4..8] == WideField(e, s.value);
      assert bs[8..12] == WideField(e, s.size) && bs[14..16] == HalfField(e, s.shndx);
    } else {
      assert bs[0..4] == WordField(e, s.name) && bs[8..16] == WideField(e, s.value);
      assert bs[16..24] == WideField(e, s.size) && bs[6..8] == HalfField(e, s.shndx);
    }
  }

  const NULL_SYMBOL := Sym(0, 0, 0, 0, 0, 0)

  /** The contents after adding sym to a table with contents s, and the index returned: a null symbol goes
      first into an empty table. */
  function AddedSym(e: Encoding, s: seq<byte>, sym: Sym): (seq<byte>, nat) {
    var base := if s == [] then SymBytes(e, NULL_SYMBOL) else s;
    (base + SymBytes(e, sym), |base| / EntrySize(e))
  }

  /** A table of whole entries. */
  predicate WholeTable(e: Encoding, s: seq<byte>) { |s| % EntrySize(e) == 0 }

  lemma AppendedSym(e: Encoding, s: seq<byte>, sym: Sym, i: nat)
    requires WholeTable(e, s) && FitsSym(e, sym)
    ensures WholeTable(e, s + SymBytes(e, sym))
    ensures SymAt(e, s + SymBytes(e, sym), |s| / EntrySize(e)) == Some(sym)
    ensures SymAt(e, s, i).Some? ==> SymAt(e, s + SymBytes(e, sym), i) == SymAt(e, s, i)
  {
    hide ReadSym, SymBytes;
    var size := EntrySize(e);
    var n, t := Count(s, size), s + SymBytes(e, sym);
    assert |s| == size * n && |t| == size * (n + 1);
    assert Count(t, size) == n + 1;
    assert Record(t, size, n) == SymBytes(e, sym);
    SymRoundTrip(e, sym);
    if i < n {
      Inside(s, size, i);
      assert Record(t, size, i) == Record(s, size, i);
    }
  }

  /** An added symbol is read back at the index returned, and every earlier symbol is still there. */
  lemma AddedSymReadsBack(e: Encoding, s: seq<byte>, sym: Sym, i: nat)
    requires WholeTable(e, s) && FitsSym(e, sym)
    ensures WholeTable(e, AddedSym(e, s, sym).0)
    ensures SymAt(e, AddedSym(e, s, sym).0, AddedSym(e, s, sym).1) == Some(sym)
    ensures SymAt(e, s, i).Some? ==> SymAt(e, AddedSym(e, s, sym).0, i) == SymAt(e, s, i)
    ensures s == [] ==> SymAt(e, AddedSym(e, s, sym).0, 0) == Some(NULL_SYMBOL)
  {
    hide SymBytes, ReadSym, Record;
    var base := if s == [] then SymBytes(e, NULL_SYMBOL) else s;
    if s == [] {
      assert [] + SymBytes(e, NULL_SYMBOL) == base;
      AppendedSym(e, [], NULL_SYMBOL, i);
      AppendedSym(e, base, sym, 0);
    }
    AppendedSym(e, base, sym, i);
  }

  // ----- symbols with names -----

  /** A symbol to be added under a name; its own name field is replaced by the string's offset. */
  datatype NamedSym = NamedSym(name: Name, sym: Sym)

  /** The contents of the symbol section and of its string section. */
  datatype Tables = Tables(syms: seq<byte>, strs: seq<byte>)

  function AddedNamed(e: Encoding, t: Tables, x: NamedSym): (Tables, nat) {
    var (strs, at) := Added(t.strs, x.name);
    var (syms, index) := AddedSym(e, t.syms, x.sym.(name := W(at)));
    (Tables(syms, strs), index)
  }

  /** get_symbol by index: the entry, and the string its name field leads to. */
  function NamedAt(e: Encoding, t: Tables, i: nat): Option<NamedSym> {
    match SymAt(e, t.syms, i)
    case None => None
    case Some(s) =>
      match StringAt(t.strs, s.name)
      case None => None
      case Some(name) => Some(NamedSym(name, s.(name := 0)))
  }

  function AddedAllNamed(e: Encoding, t: Tables, xs: seq<NamedSym>): (r: (Tables, seq<nat>))
    ensures |r.1| == |xs|
    decreases |xs|
  {
    if xs == [] then (t, [])
    else
      var (u, i) := AddedNamed(e, t, xs[0]);
      var (v, rest) := AddedAllNamed(e, u, xs[1..]);
      (v, [i] + rest)
  }

  ghost predicate CanAdd(e: Encoding, xs: seq<NamedSym>) {
    forall i :: 0 <= i < |xs| ==> 0 !in xs[i].name && xs[i].sym.name == 0 && FitsSym(e, xs[i].sym)
  }

  lemma AddedNamedReadsBack(e: Encoding, t: Tables, x: NamedSym, i: nat)
    requires WholeTable(e, t.syms) && 0 !in x.name && x.sym.name == 0 && FitsSym(e, x.sym) && |t.strs| < 0x1_0000_0000
    ensures WholeTable(e, AddedNamed(e, t, x).0.syms)
    ensures NamedAt(e, AddedNamed(e, t, x).0, AddedNamed(e, t, x).1) == Some(x)
    ensures NamedAt(e, t, i).Some? ==> NamedAt(e, AddedNamed(e, t, x).0, i) == NamedAt(e, t, i)
  {
    hide SymAt, StringAt, Added, AddedSym, WholeTable;
    AddedReadsBack(t.strs, x.name, 0);
    var (strs, at) := Added(t.strs, x.name);
    AddedSymReadsBack(e, t.syms, x.sym.(name := W(at)), i);
    if SymAt(e, t.syms, i).Some? {
      AddedReadsBack(t.strs, x.name, SymAt(e, t.syms, i).value.name);
    }
  }

  /** The length that a string table reaches, and the room it needs. */
  function NamesLength(xs: seq<NamedSym>): nat {
    if xs == [] then 0 else |xs[0].name| + 2 + NamesLength(xs[1..])
  }

  /** After any run of additions, in either byte order, every symbol is found under the index its own
      addition returned, with its name and all its fields. */
  lemma {:induction false} AllNamedReadBack(e: Encoding, t: Tables, xs: seq<NamedSym>, k: nat)
    requires WholeTable(e, t.syms) && CanAdd(e, xs) && |t.strs| + NamesLength(xs) < 0x1_0000_0000 && k < |xs|
    ensures NamedAt(e, AddedAllNamed(e, t, xs).0, AddedAllNamed(e, t, xs).1[k]) == Some(xs[k])
    decreases |xs|
  {
    hide NamedAt;
    var (u, i) := AddedNamed(e, t, xs[0]);
    AddedNamedReadsBack(e, t, xs[0], 0);
    if k == 0 {
      NamedKeptByAll(e, u, xs[1..], i);
    } else {
      AllNamedReadBack(e, u, xs[1..], k - 1);
    }
  }

  lemma {:induction false} NamedKeptByAll(e: Encoding, t: Tables, xs: seq<NamedSym>, i: nat)
    requires WholeTable(e, t.syms) && CanAdd(e, xs) && |t.strs| + NamesLength(xs) < 0x1_0000_0000
             && NamedAt(e, t, i).Some?
    ensures NamedAt(e, AddedAllNamed(e, t, xs).0, i) == NamedAt(e, t, i)
    decreases |xs|
  {
    hide NamedAt;
    if xs != [] {
      AddedNamedReadsBack(e, t, xs[0], i);
      NamedKeptByAll(e, AddedNamed(e, t, xs[0]).0, xs[1..], i);
    }
  }

  // ----- on sections -----

  method AppendSym(section: SectionBuffer, e: Encoding, sym: Sym)
    requires section.Valid() && section.kind != SHT_NOBITS && section.HasRoom(EntrySize(e))
    modifies section, section.data
    ensures section.Valid() && (fresh(section.data) || section.data == old(section.data))
    ensures section.Contents() == old(section.Contents()) + SymBytes(e, sym)
    ensures section.dataSize == W(Grown(old(section.size), old(section.dataSize), EntrySize(e)))
  {
    ghost var moved;
    var ok;
    ok, moved := section.AppendData(SymBytes(e, sym));
  }

  /** add_symbol. */
  method AddSymbol(section: SectionBuffer, e: Encoding, sym: Sym) returns (index: nat)
    requires section.Valid() && section.kind != SHT_NOBITS && section.HasRoom(EntrySize(e))
    requires section.size == 0 ==>
               CapacityCovers(EntrySize(e), W(Grown(0, section.dataSize, EntrySize(e))), EntrySize(e))
    modifies section, section.data
    ensures section.Valid() && (fresh(section.data) || section.data == old(section.data))
    ensures section.Contents() == AddedSym(e, old(section.Contents()), sym).0
    ensures WholeTable(e, old(section.Contents())) ==> index == AddedSym(e, old(section.Contents()), sym).1
  {
    hide SymBytes;
    ghost var was := section.Contents();
    if section.size == 0 {
      AppendSym(section, e, NULL_SYMBOL);
      assert was + SymBytes(e, NULL_SYMBOL) == SymBytes(e, NULL_SYMBOL);
    }
    ghost var base := section.Contents();
    AppendSym(section, e, sym);
    index := section.size / EntrySize(e) - 1;
    if WholeTable(e, was) { LastIndex(e, |base|); }
  }

  lemma LastIndex(e: Encoding, n: nat)
    requires n % EntrySize(e) == 0
    ensures (n + EntrySize(e)) / EntrySize(e) - 1 == n / EntrySize(e)
  {
  }

  /** get_symbol by index, with the entry size of the section's header: an entry size below that of the
      structure leaves no symbols. */
  function SymRead(e: Encoding, s: seq<byte>, entSize: nat, index: nat): Option<Sym> {
    if entSize < EntrySize(e) || index >= |s| / entSize then None
    else
      Inside(s, entSize, index);
      Some(ReadSym(e, s[index * entSize..index * entSize + EntrySize(e)]))
  }

  method GetSymbolEntry(section: SectionBuffer, e: Encoding, entSize: nat, index: nat) returns (r: Option<Sym>)
    requires section.Valid()
    ensures r == SymRead(e, section.Contents(), entSize, index)
    ensures entSize == EntrySize(e) ==> r == SymAt(e, section.Contents(), index)
  {
    hide ReadSym;
    if entSize < EntrySize(e) || index >= section.size / entSize { return None; }
    Inside(section.Contents(), entSize, index);
    var bytes := ReadBytes(section, index * entSize, EntrySize(e));
    r := Some(ReadSym(e, bytes));
  }
}

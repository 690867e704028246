/** Moving the local symbols of a table to the front (generic_arrange_local_symbols), with a relocation
    section that is kept in step by swap_symbols; both work on the bytes of their sections. */
module SymbolArrange {
  import opened Bits
  import opened Fields
  import opened SectionData
  import opened Records
  import opened SymbolTable
  import opened RelocationTable

  // ----- symbols -----

  /** The symbols of a table with contents s. */
  function Syms(e: Encoding, s: seq<byte>): (r: seq<Sym>)
    ensures |r| == Count(s, EntrySize(e))
  {
    seq(Count(s, EntrySize(e)), (k: nat) requires k < Count(s, EntrySize(e)) => ReadSym(e, Record(s, EntrySize(e), k)))
  }

  lemma SymsOfReplaced(e: Encoding, s: seq<byte>, i: nat, bs: seq<byte>)
    requires i < Count(s, EntrySize(e)) && |bs| == EntrySize(e)
    ensures Syms(e, Replaced(s, EntrySize(e), i, bs)) == Syms(e, s)[i := ReadSym(e, bs)]
  {
    hide Record, Replaced, ReadSym;
    var t := Replaced(s, EntrySize(e), i, bs);
    forall k | 0 <= k < Count(s, EntrySize(e)) ensures Syms(e, t)[k] == Syms(e, s)[i := ReadSym(e, bs)][k] {
      RecordOfReplaced(s, EntrySize(e), i, bs, k);
    }
  }

  function Swap(s: seq<Sym>, i: nat, j: nat): (r: seq<Sym>)
    requires i < |s| && j < |s|
    ensures |r| == |s|
  {
    s[i := s[j]][j := s[i]]
  }

  /** Entry e' over table s' says the same as entry e over table s: the same offset, kind and addend, and
      a symbol with the same contents. */
  predicate SameMeaning(c: Class, e': RelEntry, s': seq<Sym>, e: RelEntry, s: seq<Sym>) {
    && e'.offset == e.offset && e'.addend == e.addend && RType(c, e'.info) == RType(c, e.info)
    && |s'| == |s|
    && var (x', x) := (RSym(c, e'.info), RSym(c, e.info));
    if x < |s| then x' < |s| && s'[x'] == s[x] else x' == x
  }

  lemma MeaningIsTransitive(c: Class, e'': RelEntry, s'': seq<Sym>, e': RelEntry, s': seq<Sym>,
                            e: RelEntry, s: seq<Sym>)
    requires SameMeaning(c, e'', s'', e', s') && SameMeaning(c, e', s', e, s)
    ensures SameMeaning(c, e'', s'', e, s)
  {
  }

  /** The info field of an entry has the class's width. */
  predicate FitsClass(c: Class, e: RelEntry) { c == ELFCLASS32 ==> e.info < 0x1_0000_0000 }

  ghost predicate AllFit(c: Class, r: seq<RelEntry>) {
    forall k :: 0 <= k < |r| ==> FitsClass(c, r[k])
  }

  /** Swapping two symbols and their references at the same time changes no meaning. */
  lemma SwapKeepsMeaning(c: Class, e: RelEntry, s: seq<Sym>, first: word, second: word)
    requires FitsClass(c, e) && first < |s| && second < |s| && (c == ELFCLASS32 ==> |s| <= 0x100_0000)
    ensures SameMeaning(c, SwapOne(c, e, first, second), Swap(s, first, second), e, s)
    ensures FitsClass(c, SwapOne(c, e, first, second))
  {
    hide RInfo, RSym, RType;
    PackExact(c, first, RType(c, e.info));
    PackExact(c, second, RType(c, e.info));
    TypeIsSmall(c, e);
  }

  lemma TypeIsSmall(c: Class, e: RelEntry)
    ensures c == ELFCLASS32 ==> RType(c, e.info) % 0x100 == RType(c, e.info)
  {
  }

  /** The symbols from i to k are all local, or all not. */
  ghost predicate AllAre(s: seq<Sym>, i: nat, k: nat, local: bool) {
    forall x :: i <= x < k && x < |s| ==> s[x].Local() == local
  }

  lemma EmptyRange(s: seq<Sym>, i: nat, local: bool)
    ensures AllAre(s, i, i, local)
  {
  }

  lemma JoinRanges(s: seq<Sym>, i: nat, j: nat, k: nat, local: bool)
    requires AllAre(s, i, j, local) && AllAre(s, j, k, local)
    ensures AllAre(s, i, k, local)
  {
  }

  lemma SwapBehind(s: seq<Sym>, n: nat, k: nat)
    requires 1 <= n < k < |s| && AllAre(s, 1, n, true)
    ensures AllAre(Swap(s, n, k), 1, n, true) && Swap(s, n, k)[0] == s[0] && Swap(s, n, k)[n] == s[k]
  {
  }

  lemma RestIs(s: seq<Sym>, n: nat, k: nat)
    requires n >= |s| || (!s[n].Local() && AllAre(s, n + 1, k, false) && k >= |s|)
    ensures AllAre(s, n, |s|, false)
  {
  }

  /** Binding 0 (the upper four bits of the info byte) in 1..n, another binding behind. */
  predicate SplitByBinding(s: seq<Sym>, n: nat) {
    && (forall x :: 1 <= x < n && x < |s| ==> s[x].info < 0x10)
    && (forall x :: n <= x < |s| ==> s[x].info >= 0x10)
  }

  /** The symbols of binding 0. */
  function LocalIndices(s: seq<Sym>): set<nat> { set x: nat | x < |s| && s[x].info < 0x10 }

  lemma BindingSplits(s: seq<Sym>, n: nat)
    requires AllAre(s, 1, n, true) && AllAre(s, n, |s|, false)
    ensures SplitByBinding(s, n)
  {
  }

  lemma LocalIsBinding(s: seq<Sym>)
    ensures |s| > 0 ==> (s[0].Local() <==> s[0].info < 0x10)
  {
  }

  lemma {:induction false} LocalsAreIndices(s: seq<Sym>)
    ensures Locals(s) == |LocalIndices(s)|
  {
    if s == [] {
      assert LocalIndices(s) == {};
    } else {
      var n := |s| - 1;
      LocalsAreIndices(s[..n]);
      if s[n].Local() {
        assert LocalIndices(s) == LocalIndices(s[..n]) + {n};
      } else {
        assert LocalIndices(s) == LocalIndices(s[..n]);
      }
    }
  }

  /** The info byte of a symbol is byte 12 of a 32-bit entry and byte 4 of a 64-bit one. */
  lemma InfoByte(e: Encoding, s: seq<byte>, k: nat)
    requires k < |Syms(e, s)|
    ensures var a := if e.elfClass == ELFCLASS32 then 16 * k + 12 else 24 * k + 4;
            a < |s| && Syms(e, s)[k].info == s[a]
  {
    hide ReadWordField, ReadWideField, ReadHalfField;
    Inside(s, EntrySize(e), k);
  }

  /** A symbol section: its bytes and its sh_info field. */
  class SymbolSection {
    const section: SectionBuffer
    const enc: Encoding
    var info: word

    constructor (section: SectionBuffer, enc: Encoding)
      ensures this.section == section && this.enc == enc && info == 0
    {
      this.section, this.enc, info := section, enc, 0;
    }

    ghost function Symbols(): seq<Sym>
      reads section, section.data
      requires section.Valid()
    {
      Syms(enc, section.Contents())
    }

    method IsLocal(i: nat) returns (local: bool)
      requires section.Valid() && i < |Symbols()|
      ensures local == Symbols()[i].Local()
    {
      hide ReadSym;
      var bs := ReadRecord(section, EntrySize(enc), i);
      local := ReadSym(enc, bs).Local();
    }

    /** The first index from i on whose symbol is, or is not, local. */
    method Skip(i: nat, local: bool) returns (r: nat)
      requires section.Valid()
      ensures i <= r && (r <= |Symbols()| || r == i)
      ensures AllAre(Symbols(), i, r, local)
      ensures r < |Symbols()| ==> Symbols()[r].Local() != local
    {
      hide Syms, Sym.Local;
      r := i;
      var count := section.size / EntrySize(enc);
      while r < count
        invariant i <= r && (r <= |Symbols()| || r == i)
        invariant AllAre(Symbols(), i, r, local)
      {
        var here := IsLocal(r);
        if here != local { return; }
        r := r + 1;
      }
    }

    /** From a first part of locals on: the next symbol that is not local, and the next local behind it. */
    method FindPair(from: nat) returns (firstNotLocal: nat, current: nat)
      requires section.Valid() && 1 <= from && AllAre(Symbols(), 1, from, true)
               && (from <= |Symbols()| || |Symbols()| == 0)
      ensures from <= firstNotLocal < current && (|Symbols()| > 0 ==> firstNotLocal <= |Symbols()|)
      ensures |Symbols()| == 0 ==> firstNotLocal == from
      ensures AllAre(Symbols(), 1, firstNotLocal, true)
      ensures if firstNotLocal < |Symbols()| && current < |Symbols()|
              then !Symbols()[firstNotLocal].Local() && Symbols()[current].Local()
              else AllAre(Symbols(), firstNotLocal, |Symbols()|, false)
    {
      hide Sym.Local, AllAre, Syms;
      firstNotLocal := Skip(from, true);
      JoinRanges(Symbols(), 1, from, firstNotLocal, true);
      current := Skip(firstNotLocal + 1, false);
      if !(firstNotLocal < |Symbols()| && current < |Symbols()|) { RestIs(Symbols(), firstNotLocal, current); }
    }

    /** The callback for two symbols, and the swap of their entries. */
    method SwapEntries(rels: SectionBuffer, f: Format, i: word, j: word, ghost s0: seq<Sym>, ghost r0: seq<RelEntry>)
      requires section.Valid() && rels.Valid() && section != rels && section.data != rels.data && f.enc == enc
      requires i < j < |Symbols()| && (enc.elfClass == ELFCLASS32 ==> |Symbols()| <= 0x100_0000)
      requires InStep(enc.elfClass, Symbols(), Entries(f, rels.Contents()), s0, r0)
      modifies section.data, rels.data
      ensures Symbols() == Swap(old(Symbols()), i, j)
      ensures InStep(enc.elfClass, Symbols(), Entries(f, rels.Contents()), s0, r0)
    {
      hide InStep, SwapOne, FitsClass, Entries, Syms, Replaced, Record, ReadSym;
      ghost var c, s1, r1 := enc.elfClass, Symbols(), Entries(f, rels.Contents());
      StepAllFit(c, s1, r1, s0, r0);
      SwapSymbols(rels, f, i, j);
      SwapRecords(i, j);
      SwapStep(c, s0, r0, s1, r1, Symbols(), Entries(f, rels.Contents()), i, j);
    }

    /** std::swap of two entries. */
    method SwapRecords(i: nat, j: nat)
      requires section.Valid() && i < j < |Symbols()|
      modifies section.data
      ensures Symbols() == Swap(old(Symbols()), i, j)
    {
      hide Replaced, Record, ReadSym;
      var size := EntrySize(enc);
      ghost var s := section.Contents();
      var p1 := ReadRecord(section, size, i);
      var p2 := ReadRecord(section, size, j);
      SymsOfReplaced(enc, s, i, p2);
      SymsOfReplaced(enc, Replaced(s, size, i, p2), j, p1);
      WriteRecord(section, size, i, p2);
      WriteRecord(section, size, j, p1);
    }

    /** arrange_local_symbols, with swap_symbols on one relocation section as its callback. */
    method ArrangeLocalSymbols(rels: SectionBuffer, f: Format) returns (firstNotLocal: word)
      requires section.Valid() && rels.Valid() && section != rels && section.data != rels.data && f.enc == enc
      requires enc.elfClass == ELFCLASS32 ==> |Symbols()| <= 0x100_0000
      modifies this`info, section.data, rels.data
      ensures info == firstNotLocal && 1 <= firstNotLocal && (|Symbols()| > 0 ==> firstNotLocal <= |Symbols()|)
      ensures |Symbols()| > 0 ==> Symbols()[0] == old(Symbols()[0])
      ensures AllAre(Symbols(), 1, firstNotLocal, true) && AllAre(Symbols(), firstNotLocal, |Symbols()|, false)
      ensures InStep(enc.elfClass, Symbols(), Entries(f, rels.Contents()), old(Symbols()),
              old(Entries(f, rels.Contents())))
      ensures |Symbols()| > 0 && old(Symbols())[0].Local() ==> firstNotLocal == Locals(old(Symbols()))
      ensures SplitByBinding(Symbols(), firstNotLocal)
      ensures |Symbols()| > 0 && old(Symbols())[0].info < 0x10 ==> firstNotLocal == |LocalIndices(old(Symbols()))|
    {
      hide InStep, SwapOne, FitsClass, Locals, AllFit, Sym.Local, AllAre, Entries, Syms, EntrySize;
      firstNotLocal := 1;
      var count := section.size / EntrySize(enc);
      ghost var c, s0, r0 := enc.elfClass, Symbols(), Entries(f, rels.Contents());
      StartInStep(f, rels.Contents(), s0);
      EmptyRange(s0, 1, true);
      while true
        invariant 1 <= firstNotLocal && (count > 0 ==> firstNotLocal <= count)
        invariant |Symbols()| == count && (count > 0 ==> Symbols()[0] == s0[0])
        invariant AllAre(Symbols(), 1, firstNotLocal, true)
        invariant InStep(c, Symbols(), Entries(f, rels.Contents()), s0, r0)
        decreases 2 * (count + 1 - firstNotLocal)
                  - if firstNotLocal < count && Symbols()[firstNotLocal].Local() then 1 else 0
      {
        var current;
        firstNotLocal, current := FindPair(firstNotLocal);
        if firstNotLocal < count && current < count {
          SwapBehind(Symbols(), firstNotLocal, current);
          SwapEntries(rels, f, firstNotLocal, current, s0, r0);
        } else {
          info := firstNotLocal;
          if count > 0 && s0[0].Local() { PartitionPoint(Symbols(), firstNotLocal); }
          SameLocals(c, Symbols(), Entries(f, rels.Contents()), s0, r0);
          BindingSplits(Symbols(), firstNotLocal);
          LocalsAreIndices(s0);
          LocalIsBinding(s0);
          break;
        }
      }
    }
  }

  /** Table s and entries r are a rearrangement of s0 and r0: the same symbols, and every entry with the
      meaning it had. */
  ghost predicate InStep(c: Class, s: seq<Sym>, r: seq<RelEntry>, s0: seq<Sym>, r0: seq<RelEntry>) {
    && |s| == |s0| && |r| == |r0| && multiset(s) == multiset(s0) && Locals(s) == Locals(s0) && AllFit(c, r)
    && forall k :: 0 <= k < |r| ==> SameMeaning(c, r[k], s, r0[k], s0)
  }

  lemma StepAllFit(c: Class, s: seq<Sym>, r: seq<RelEntry>, s0: seq<Sym>, r0: seq<RelEntry>)
    requires InStep(c, s, r, s0, r0)
    ensures AllFit(c, r)
  {
  }

  lemma SameLocals(c: Class, s: seq<Sym>, r: seq<RelEntry>, s0: seq<Sym>, r0: seq<RelEntry>)
    requires InStep(c, s, r, s0, r0)
    ensures Locals(s) == Locals(s0)
  {
  }

  lemma {:induction false} LocalsUpdate(s: seq<Sym>, i: nat, x: Sym)
    requires i < |s|
    ensures Locals(s[i := x]) + (if s[i].Local() then 1 else 0) == Locals(s) + (if x.Local() then 1 else 0)
  {
    var n := |s| - 1;
    if i < n {
      assert s[i := x][..n] == s[..n][i := x];
      LocalsUpdate(s[..n], i, x);
    } else {
      assert s[i := x][..n] == s[..n];
    }
  }

  lemma StartInStep(f: Format, s: seq<byte>, syms: seq<Sym>)
    ensures InStep(f.enc.elfClass, syms, Entries(f, s), syms, Entries(f, s))
  {
  }

  /** One swap of the arrangement. */
  lemma SwapStep(c: Class, s0: seq<Sym>, r0: seq<RelEntry>, s1: seq<Sym>, r1: seq<RelEntry>,
                 s2: seq<Sym>, r2: seq<RelEntry>, i: word, j: word)
    requires InStep(c, s1, r1, s0, r0) && |r2| == |r1| && i < j < |s1| && (c == ELFCLASS32 ==> |s1| <= 0x100_0000)
    requires forall k :: 0 <= k < |r1| ==> FitsClass(c, r1[k]) && r2[k] == SwapOne(c, r1[k], i, j)
    requires s2 == Swap(s1, i, j)
    ensures InStep(c, s2, r2, s0, r0)
  {
    hide SameMeaning, FitsClass, SwapOne;
    LocalsUpdate(s1, i, s1[j]);
    LocalsUpdate(s1[i := s1[j]], j, s1[i]);
    forall k | 0 <= k < |r2| ensures FitsClass(c, r2[k]) && SameMeaning(c, r2[k], s2, r0[k], s0) {
      SwapKeepsMeaning(c, r1[k], s1, i, j);
      MeaningIsTransitive(c, r2[k], s2, r1[k], s1, r0[k], s0);
    }
  }

  /** Entry 0 being local as the ELF specification has it, the returned index is the number of locals. */
  lemma {:induction false} PartitionPoint(s: seq<Sym>, n: nat)
    requires 1 <= n <= |s| && s[0].Local() && AllAre(s, 1, n, true) && AllAre(s, n, |s|, false)
    ensures n == Locals(s)
  {
    if |s| > n {
      PartitionPoint(s[..|s| - 1], n);
    } else if n > 1 {
      PartitionPoint(s[..n - 1], n - 1);
    } else {
      assert s[..0] == [];
    }
  }

  /** The number of local symbols. */
  function Locals(s: seq<Sym>): nat {
    if s == [] then 0 else Locals(s[..|s| - 1]) + if s[|s| - 1].Local() then 1 else 0
  }
}

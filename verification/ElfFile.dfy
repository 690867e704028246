/** The parts of a parsed ELF file that the loader looks at. */
module ElfFile {
  import opened Bits
  import opened Wrappers

  const SHT_PROGBITS: word := 1
  const SHT_RELA: word := 4
  const SHT_NOBITS: word := 8
  const SHT_REL: word := 9
  const SHT_RPL_IMPORTS: word := 0x80000002
  const SHF_ALLOC: word := 2
  const SHN_LORESERVE: half := 0xFF00
  const SHN_ABS: half := 0xFFF1

  datatype Symbol = Symbol(name: string, value: word, sectionIndex: half)

  /** A relocation entry as get_entry delivers it. */
  datatype Reloc = Reloc(offset: word, symbol: word, kind: byte, addend: sword)

  /** A section. `entries` is what get_entry delivers for it, `symbols` what get_symbol delivers. */
  datatype Section = Section(
    kind: word, flags: word, size: word, address: word, link: word, info: word, name: string,
    data: seq<byte>, entries: seq<Reloc>, symbols: seq<Symbol>)
  {
    /** A section that occupies memory in the loaded module. */
    predicate Allocated() { (kind == SHT_PROGBITS || kind == SHT_NOBITS) && AndWord(flags, SHF_ALLOC) != 0 }

    /** Allocated sections are all placed but one. */
    predicate Placed() { Allocated() && name != ".wut_load_bounds" }

    predicate IsText() { 0x02000000 <= address < 0x10000000 }
    predicate IsData() { 0x10000000 <= address < 0xC0000000 }
    predicate HasRelocations() { kind == SHT_RELA || kind == SHT_REL }

    /** The bytes the section has in memory. */
    function Contents(): (r: seq<byte>)
      requires kind == SHT_PROGBITS ==> size <= |data|
      ensures |r| == size
    {
      if kind == SHT_PROGBITS then data[..size] else seq(size, (i: nat) => 0)
    }
  }

  lemma AllocFlag()
    ensures AndWord(SHF_ALLOC, SHF_ALLOC) == SHF_ALLOC
  {
    assert And(2, 2) == 2 by { assert And(1, 1) == 1; }
  }

  type Elf = seq<Section>

  /** What the loader takes for granted of a file: copied sections have their bytes, and relocation
      sections name an existing section. */
  ghost predicate WellFormed(elf: Elf) {
    && |elf| < 0x1_0000_0000
    && (forall i :: 0 <= i < |elf| && elf[i].kind == SHT_PROGBITS ==> elf[i].size <= |elf[i].data|)
    && (forall i :: 0 <= i < |elf| && elf[i].HasRelocations() ==> elf[i].info < |elf|)
  }

  /** get_symbol by index in the symbol table that section s links to. */
  function GetSymbol(elf: Elf, s: Section, index: word): Option<Symbol> {
    var table := s.link % 0x1_0000;
    if table < |elf| && index < |elf[table].symbols| then Some(elf[table].symbols[index]) else None
  }
}

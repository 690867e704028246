/** load and do_start told in numbers: section types, address regions, symbol values and outcomes, by literals and
    arithmetic modulo 2^32. */
module LoaderNumbers {
  import opened Bits
  import opened Memory
  import opened Wrappers
  import opened ElfUtils
  import opened ElfFile
  import opened Layout
  import opened ModuleDataFactory
  import opened Imports
  import opened Loader

  // ----- sections -----

  lemma FlagBit(x: word)
    ensures AndWord(x, 2) != 0 <==> x / 2 % 2 == 1
  {
    hide And;
    assert Pow2(1) == 2;
    var y := x / 2;
    AndAt(1, 2, y, x % 2, 1, 0);
    AndZero(x % 2);
    AndAt(1, 2, y / 2, y % 2, 0, 1);
    AndZero(y / 2);
    AndMask(1, 2, y % 2);
  }

  /** Types 1 (PROGBITS) and 8 (NOBITS) with bit 1 of the flags set are allocated; types 4 (RELA) and 9 (REL)
      hold relocations. */
  lemma KindsInNumbers(s: Section)
    ensures s.Allocated() <==> s.kind in {1, 8} && s.flags / 2 % 2 == 1
    ensures s.Placed() <==> s.Allocated() && s.name != ".wut_load_bounds"
    ensures s.HasRelocations() <==> s.kind in {4, 9}
    ensures s.IsText() <==> 0x0200_0000 <= s.address < 0x1000_0000
    ensures s.IsData() <==> 0x1000_0000 <= s.address < 0xC000_0000
    ensures s.kind == 1 && s.size <= |s.data| ==> s.Contents() == s.data[..s.size]
    ensures s.kind != 1 ==> forall i :: 0 <= i < s.size ==> s.Contents()[i] == 0
  {
    hide And;
    FlagBit(s.flags);
  }

  /** Symbol `index` of the table that the low 16 bits of sh_link name. */
  lemma SymbolsInNumbers(elf: Elf, s: Section, index: word)
    ensures var table := s.link % 0x1_0000;
            if table < |elf| && index < |elf[table].symbols|
            then GetSymbol(elf, s, index) == Some(elf[table].symbols[index]) else GetSymbol(elf, s, index) == None
  {
  }

  // ----- the layout pass -----

  /** Where one section goes: behind the text placed so far, counted from 0x02000000 or 0x10000000. It fails
      in no region, and halts outside the window. */
  lemma SectionInNumbers(s: Section, i: nat, target: word, limit: word, p: Placement, m: Mem)
    requires i < |p.dests| && (s.kind == 1 ==> s.size <= |s.data|) && s.Placed()
    ensures var r := PlaceOne(s, i, target, limit, p, m);
            if s.address < 0x0200_0000 || s.address >= 0xC000_0000 then r == (Failure, p, m)
            else
              var start := if s.address < 0x1000_0000 then 0x0200_0000 else 0x1000_0000;
              var d: word := (p.base as int + s.address - start) % 0x1_0000_0000;
              if d < target || (d as int + s.size) % 0x1_0000_0000 > limit then r == (Halted, p, m)
              else
                && r.0 == Success && r.2 == PutBytes(m, d, s.Contents())
                && r.1.base == (if s.address < 0x1000_0000 then (p.base as int + s.size) % 0x1_0000_0000 else p.base)
                && r.1.dests == p.dests[i := (p.base as int - start) % 0x1_0000_0000]
                && r.1.bss == (if s.name == ".bss" then (d, s.size) else p.bss)
                && r.1.sbss == (if s.name == ".sbss" then (d, s.size) else p.sbss)
  {
    hide PutBytes, Section.Contents, Section.Allocated, Destination, Plus, Sub;
    AddressesInNumbers(p.base, s);
  }

  lemma AddressesInNumbers(base: word, s: Section)
    ensures var d := Destination(base, s);
            && d == (base as int + s.address - Region(s)) % 0x1_0000_0000
            && Plus(d, s.size) == (d as int + s.size) % 0x1_0000_0000
    ensures Plus(base, s.size) == (base as int + s.size) % 0x1_0000_0000
    ensures Sub(base, Region(s)) == (base as int - Region(s)) % 0x1_0000_0000
  {
  }

  /** The window starts at the multiple of 0x100 below its end less the room. */
  lemma TargetInNumbers(limit: word, room: word)
    ensures TargetAddress(limit, room) == (limit as int - room) % 0x1_0000_0000 / 0x100 * 0x100
  {
    hide And;
    AndRound8(Sub(limit, room));
  }

  // ----- the link pass -----

  /** Symbol values from 0x02000000 count from the text, from 0x10000000 from the data; from 0xC0000000 they
      are imports; 0 is kept; the rest is not handled. */
  lemma ResolveInNumbers(value: word, baseText: word, baseData: word)
    ensures Resolve(value, baseText, baseData) ==
            if value == 0 then Resolved(0)
            else if value < 0x0200_0000 then Unhandled
            else if value < 0x1000_0000 then Resolved((value as int - 0x0200_0000 + baseText) % 0x1_0000_0000)
            else if value < 0xC000_0000 then Resolved((value as int - 0x1000_0000 + baseData) % 0x1_0000_0000)
            else Import
  {
  }

  /** An entry is left to the import phase for values from 0xC0000000. Otherwise it halts without a symbol,
      is refused exactly for values between 0 and 0x02000000 and section indices above 0xFF00 other than
      0xFFF1, and is applied with the resolved address. */
  lemma EntryInNumbers(elf: Elf, s: Section, j: nat, destination: word, baseText: word, baseData: word)
    requires j < |s.entries|
    ensures var e := s.entries[j];
            var symbol := GetSymbol(elf, s, e.symbol);
            && (IsImport(elf, s, j) <==> symbol.Some? && symbol.value.value >= 0xC000_0000)
            && (!IsImport(elf, s, j) ==>
                  var act := EntryAct(elf, s, j, destination, baseText, baseData);
                  if symbol.None? then act == Halt
                  else
                    var v, n := symbol.value.value, symbol.value.sectionIndex;
                    && (act == Refuse <==> 0 < v < 0x0200_0000 || (n > 0xFF00 && n != 0xFFF1))
                    && (act != Refuse ==>
                          var a := if v == 0 then 0
                                   else if v < 0x1000_0000 then (v as int - 0x0200_0000 + baseText) % 0x1_0000_0000
                                   else (v as int - 0x1000_0000 + baseData) % 0x1_0000_0000;
                          act == Apply(Link(e.kind, e.offset, e.addend, destination, a))))
  {
    hide GetSymbol, Resolve;
    var symbol := GetSymbol(elf, s, s.entries[j].symbol);
    if symbol.Some? { ResolveInNumbers(symbol.value.value, baseText, baseData); }
  }

  // ----- imports -----

  /** The library of an import is named by the section of type 0x80000002 that its symbol is defined in. */
  lemma LibraryInNumbers(elf: Elf, s: Section, j: nat, r: ImportRPL)
    requires j < |s.entries|
    ensures RplOf(elf, s, j) == Some(r) <==>
            && var symbol := GetSymbol(elf, s, s.entries[j].symbol);
            && symbol.Some?
            && symbol.value.sectionIndex < |elf| && elf[symbol.value.sectionIndex].kind == 0x8000_0002
            && elf[symbol.value.sectionIndex].name == (if r.isData then ".dimport_" else ".fimport_") + r.name
  {
    hide GetSymbol, CreateImportRPL;
    var symbol := GetSymbol(elf, s, s.entries[j].symbol);
    if symbol.Some? {
      ImportNameExact(ImportName(elf, symbol.value.sectionIndex), r);
      ImportNameExact("", r);
    }
  }

  /** The address is what the system exports, under the library's handle, for functions or data, by the
      symbol's name; 0 counts as missing. */
  lemma AddressInNumbers(sys: System, r: RelocationData, a: word)
    ensures ImportAddress(sys, r) == Some(a) <==>
            && a != 0
            && exists handle: nat ::
                 sys.acquire(r.rpl.name) == Some(handle) && sys.findExport(handle, r.rpl.isData, r.name) == a
  {
  }

  // ----- do_start -----

  /** The table holds 500 entries of 20 bytes, from the next multiple of 0x100 behind the loader's code; the
      payload's window lies between a multiple of 0x10000 behind it and 0x00FD0000. */
  lemma TableInNumbers(codeEnd: word)
    requires codeEnd < 0xF000_0000
    ensures var base := (codeEnd as int + 0x100) / 0x100 * 0x100;
            && ModuleTable(codeEnd) == Table(base, 500)
            && ModuleDataStart(codeEnd) == (base + 10000 + 0x10000) / 0x10000 * 0x10000
    ensures PAYLOAD_END == 0x00FD_0000 && TITLE_ID_ADDRESS == 0x00FF_FFF8
  {
    hide And;
    AndRound8(codeEnd + 0x100);
    var e := ModuleTable(codeEnd).base + 20 * DYN_LINK_TRAMPOLIN_LIST_LENGTH;
    AndRound16(W(e + 0x10000));
  }
}

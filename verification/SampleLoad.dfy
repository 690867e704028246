/** A payload of two sections without relocations: its room, its window, and memory when it is entered. */
module SampleLoad {
  import opened Bits
  import opened Memory
  import opened Wrappers
  import opened ElfUtils
  import opened ElfFile
  import opened Layout
  import opened ModuleDataFactory
  import opened Imports
  import opened Loader
  import opened LoaderNumbers

  /** 0x7F bytes of text followed by 0x80 bytes of data. */
  function TwoSections(text: seq<byte>, data: seq<byte>): (r: Elf) {
    [Section(1, 2, 0x7F, 0x0200_0000, 0, 0, ".text", text, [], []),
     Section(1, 2, 0x80, 0x1000_0000, 0, 0, ".data", data, [], [])]
  }

  lemma TwoShape(text: seq<byte>, data: seq<byte>)
    requires |text| == 0x7F && |data| == 0x80
    ensures var elf := TwoSections(text, data);
            && WellFormed(elf) && |elf| == 2
            && (forall k :: 0 <= k < 2 ==> elf[k].Placed() && elf[k].Allocated() && !elf[k].HasRelocations())
            && (forall k :: 0 <= k < 2 ==> elf[k].entries == [])
            && elf[0].Contents() == text && elf[1].Contents() == data
  {
    hide And;
    var elf := TwoSections(text, data);
    KindsInNumbers(elf[0]);
    KindsInNumbers(elf[1]);
    assert text[..0x7F] == text && data[..0x80] == data;
  }

  /** Each of the two sections needs one byte more than its size. */
  lemma TwoRooms(text: seq<byte>, data: seq<byte>)
    requires |text| == 0x7F && |data| == 0x80
    ensures Room(TwoSections(text, data)) == 0x101
    ensures TargetAddress(0x00FD_0000, 0x101) == 0x00FC_FE00
  {
    hide And, Section.Allocated;
    TwoShape(text, data);
    TargetInNumbers(0x00FD_0000, 0x101);
    var elf := TwoSections(text, data);
    assert elf[..1] == [elf[0]] && [elf[0]][..0] == [];
    assert Room([]) == 0;
    assert Room([elf[0]]) == 0x80;
  }

  function Both(m: Mem, text: seq<byte>, data: seq<byte>): Mem
    requires |text| == 0x7F && |data| == 0x80
  {
    PutBytes(PutBytes(m, 0x00FC_FE00, text), 0x00FC_FE7F, data)
  }

  lemma TwoPlaced(m: Mem, text: seq<byte>, data: seq<byte>)
    requires |text| == 0x7F && |data| == 0x80
    ensures WellFormed(TwoSections(text, data))
    ensures var elf, target := TwoSections(text, data), 0x00FC_FE00;
            Place(elf, 0, target, 0x00FD_0000, InitialPlacement(elf, target), m)
            == (Success, Placement(0x00FC_FE7F, [0xFEFC_FE00, 0xF0FC_FE7F], (0, 0), (0, 0)), Both(m, text, data))
  {
    hide PutBytes, Section.Contents, Section.Placed;
    TwoShape(text, data);
    var elf := TwoSections(text, data);
    var p := InitialPlacement(elf, 0x00FC_FE00);
    var q := Placement(0x00FC_FE7F, [0xFEFC_FE00, 0], (0, 0), (0, 0));
    var r := Placement(0x00FC_FE7F, [0xFEFC_FE00, 0xF0FC_FE7F], (0, 0), (0, 0));
    var m1 := PutBytes(m, 0x00FC_FE00, text);
    SectionInNumbers(elf[0], 0, 0x00FC_FE00, 0x00FD_0000, p, m);
    SectionInNumbers(elf[1], 1, 0x00FC_FE00, 0x00FD_0000, q, m1);
    assert p.dests[0 := 0xFEFC_FE00] == q.dests && q.dests[1 := 0xF0FC_FE7F] == r.dests;
    assert PlaceOne(elf[0], 0, 0x00FC_FE00, 0x00FD_0000, p, m) == (Success, q, m1);
    assert PlaceOne(elf[1], 1, 0x00FC_FE00, 0x00FD_0000, q, m1) == (Success, r, Both(m, text, data));
    assert Place(elf, 2, 0x00FC_FE00, 0x00FD_0000, r, Both(m, text, data)) == (Success, r, Both(m, text, data));
  }

  lemma NothingToLink(text: seq<byte>, data: seq<byte>, dests: seq<word>, baseText: word, baseData: word)
    requires |text| == 0x7F && |data| == 0x80 && |dests| == 2
    ensures WellFormed(TwoSections(text, data))
    ensures ModuleActs(TwoSections(text, data), dests, 0, baseText, baseData) == []
    ensures ModuleImports(TwoSections(text, data), dests, 0) == Some([])
  {
    hide And;
    TwoShape(text, data);
    var elf := TwoSections(text, data);
    forall i: word ensures SectionIds(elf, i, 0) == [] {
      assert SectionIds(elf, i, 2) == [] && SectionIds(elf, i, 1) == [];
    }
    assert ModuleActs(elf, dests, 2, baseText, baseData) == [];
    assert ModuleActs(elf, dests, 1, baseText, baseData) == [];
    assert ModuleImports(elf, dests, 2) == Some([]);
    assert ModuleImports(elf, dests, 1) == Some([]);
  }

  /** The payload is entered at 0x00FCFE00, with the text there and the data right behind it. */
  lemma TwoSectionsStart(m: Mem, text: seq<byte>, data: seq<byte>, sys: System)
    requires |text| == 0x7F && |data| == 0x80 && ModuleTable(0x0080_0000).InMemory()
    ensures WellFormed(TwoSections(text, data))
    ensures Start(m, 0x0080_0000, TwoSections(text, data), 0x0200_0000, sys)
            == (EntryPoint(0x00FC_FE00), PutBytes(PutBytes(m, 0x00FC_FE00, text), 0x00FC_FE7F, data))
  {
    hide And, Room, PutBytes, Place, ModuleActs, ModuleImports, TwoSections;
    TwoShape(text, data);
    TwoRooms(text, data);
    TwoPlaced(m, text, data);
    TableInNumbers(0x0080_0000);
    var elf := TwoSections(text, data);
    var p := Placement(0x00FC_FE7F, [0xFEFC_FE00, 0xF0FC_FE7F], (0, 0), (0, 0));
    NothingToLink(text, data, p.dests, 0x00FC_FE00, p.base);
    var m1, t := Both(m, text, data), ModuleTable(0x0080_0000);
    assert RunActs(m1, t, []) == (Success, m1);
    assert RunImports(m1, t, [], sys) == Result(true, m1);
  }
}

/** Where the sections of a module are loaded: the size pass and the layout pass of
    ModuleDataFactory::load. */
module Layout {
  import opened Bits
  import opened Memory
  import opened ElfFile

  /** OSFatal never returns; a load that reaches it is Halted. */
  datatype Outcome = Success | Failure | Halted

  // ----- the size pass -----

  /** The room that allocated sections need, one byte more than their size each. */
  function Room(elf: Elf): nat {
    if elf == [] then 0
    else Room(elf[..|elf| - 1]) + if elf[|elf| - 1].Allocated() then elf[|elf| - 1].size as nat + 1 else 0
  }

  method SizeOfModule(elf: Elf) returns (sizeOfModule: word)
    ensures sizeOfModule == W(Room(elf))
  {
    sizeOfModule := 0;
    for i := 0 to |elf|
      invariant sizeOfModule == W(Room(elf[..i]))
    {
      assert elf[..i + 1][..i] == elf[..i];
      if elf[i].kind == SHT_RPL_IMPORTS { continue; }
      if elf[i].Allocated() {
        WrapSum(Room(elf[..i]), elf[i].size as nat + 1);
        sizeOfModule := W(sizeOfModule + (elf[i].size as nat + 1));
      }
    }
    assert elf[..|elf|] == elf;
  }

  function TargetAddress(destinationAddress: word, sizeOfModule: word): word {
    AndWord(Sub(destinationAddress, sizeOfModule), 0xFFFFFF00)
  }

  // ----- the layout pass -----

  datatype Placement = Placement(base: word, dests: seq<word>, bss: (word, word), sbss: (word, word))

  /** Where the section goes, given the base address reached so far. */
  function Region(s: Section): word { if s.IsText() then 0x02000000 else 0x10000000 }

  function Destination(base: word, s: Section): word { Sub(Plus(base, s.address), Region(s)) }

  /** One section of the layout pass. */
  function PlaceOne(s: Section, i: nat, target: word, limit: word, p: Placement, m: Mem): (r: (Outcome, Placement, Mem))
    requires i < |p.dests| && (s.kind == SHT_PROGBITS ==> s.size <= |s.data|)
    ensures |r.1.dests| == |p.dests|
  {
    if !s.Placed() then (Success, p, m)
    else if !s.IsText() && !s.IsData() then (Failure, p, m)
    else
      var d := Destination(p.base, s);
      if d < target || Plus(d, s.size) > limit then (Halted, p, m)
      else
        var p' := p.(base := if s.IsText() then Plus(p.base, s.size) else p.base,
                     dests := p.dests[i := Sub(p.base, Region(s))],
                     bss := if s.name == ".bss" then (d, s.size) else p.bss,
                     sbss := if s.name == ".sbss" then (d, s.size) else p.sbss);
        (Success, p', PutBytes(m, d, s.Contents()))
  }

  /** The layout pass from section i on. */
  function Place(elf: Elf, i: nat, target: word, limit: word, p: Placement, m: Mem): (r: (Outcome, Placement, Mem))
    requires WellFormed(elf) && i <= |elf| == |p.dests|
    ensures |r.1.dests| == |elf|
    decreases |elf| - i
  {
    if i == |elf| then (Success, p, m)
    else
      var r := PlaceOne(elf[i], i, target, limit, p, m);
      if r.0 == Success then Place(elf, i + 1, target, limit, r.1, r.2) else r
  }

  function InitialPlacement(elf: Elf, target: word): (p: Placement)
    ensures |p.dests| == |elf|
  {
    Placement(target, seq(|elf|, (i: nat) => 0), (0, 0), (0, 0))
  }

  method PlaceSections(mem: array<byte>, elf: Elf, target: word, limit: word)
    returns (outcome: Outcome, p: Placement, offsetData: word)
    requires mem.Length == 0x1_0000_0000 && WellFormed(elf)
    modifies mem
    ensures (outcome, p, mem[..]) == Place(elf, 0, target, limit, InitialPlacement(elf, target), old(mem[..]))
    ensures offsetData == p.base
  {
    p, offsetData := InitialPlacement(elf, target), target;
    ghost var all := Place(elf, 0, target, limit, p, mem[..]);
    for i := 0 to |elf|
      invariant |p.dests| == |elf| && offsetData == p.base
      invariant Place(elf, i, target, limit, p, mem[..]) == all
    {
      var s := elf[i];
      if s.kind == SHT_RPL_IMPORTS || s.name == ".wut_load_bounds" { continue; }
      if s.Allocated() {
        var destination := Plus(p.base, s.address);
        var q := p.(dests := p.dests[i := p.base]);
        if s.IsText() {
          destination := Sub(destination, 0x02000000);
          q := q.(dests := q.dests[i := Sub(q.dests[i], 0x02000000)], base := Plus(q.base, s.size));
        } else if s.IsData() {
          destination := Sub(destination, 0x10000000);
          q := q.(dests := q.dests[i := Sub(q.dests[i], 0x10000000)]);
        } else {
          return Failure, p, offsetData;
        }
        if destination < target { return Halted, p, offsetData; }
        if Plus(destination, s.size) > limit { return Halted, p, offsetData; }
        StoreBytes(mem, destination, s.Contents());
        if s.name == ".bss" {
          q := q.(bss := (destination, s.size));
        } else if s.name == ".sbss" {
          q := q.(sbss := (destination, s.size));
        }
        if s.IsText() { offsetData := Plus(offsetData, s.size); }
        assert q.dests == p.dests[i := Sub(p.base, Region(s))];
        p := q;
      }
    }
    outcome := Success;
  }

  // ----- the addresses of symbols -----

  datatype Resolution = Resolved(address: word) | Import | Unhandled

  /** The address that linking gives to a symbol value. */
  function Resolve(value: word, baseText: word, baseData: word): Resolution {
    if 0x02000000 <= value < 0x10000000 then Resolved(Plus(Sub(value, 0x02000000), baseText))
    else if 0x10000000 <= value < 0xC0000000 then Resolved(Plus(Sub(value, 0x10000000), baseData))
    else if value >= 0xC0000000 then Import
    else if value == 0 then Resolved(0)
    else Unhandled
  }
}

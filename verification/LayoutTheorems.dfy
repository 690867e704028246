/** What the layout pass guarantees: containment in the window, and agreement with the address that
    linking gives to symbols. */
module LayoutTheorems {
  import opened Bits
  import opened Memory
  import opened ElfFile
  import opened Layout

  // ----- the size pass -----

  /** The room of a single section: its size and one byte more, if it is allocated. */
  lemma RoomOfOne(s: Section)
    ensures Room([s]) == if s.Allocated() then s.size as nat + 1 else 0
  {
    hide Section.Allocated;
    assert [s][..0] == [] && Room([]) == 0;
  }

  /** The room of sections in a row is the sum of theirs. */
  lemma {:induction false} RoomAdds(xs: Elf, ys: Elf)
    ensures Room(xs + ys) == Room(xs) + Room(ys)
    decreases |ys|
  {
    hide Section.Allocated;
    if ys == [] {
      assert xs + ys == xs;
    } else {
      var n := |ys| - 1;
      assert (xs + ys)[..|xs| + n] == xs + ys[..n];
      RoomAdds(xs, ys[..n]);
    }
  }

  // ----- where each section ends up -----

  /** The size of the text sections placed before section k. */
  function TextBefore(elf: Elf, k: nat): nat
    requires k <= |elf|
  {
    if k == 0 then 0
    else TextBefore(elf, k - 1) + if elf[k - 1].Placed() && elf[k - 1].IsText() then elf[k - 1].size else 0
  }

  predicate Succeeds(elf: Elf, target: word, limit: word, m: Mem)
    requires WellFormed(elf)
  {
    Place(elf, 0, target, limit, InitialPlacement(elf, target), m).0 == Success
  }

  function Final(elf: Elf, target: word, limit: word, m: Mem): (p: Placement)
    requires WellFormed(elf)
    ensures |p.dests| == |elf|
  {
    Place(elf, 0, target, limit, InitialPlacement(elf, target), m).1
  }

  function Image(elf: Elf, target: word, limit: word, m: Mem): Mem
    requires WellFormed(elf)
  {
    Place(elf, 0, target, limit, InitialPlacement(elf, target), m).2
  }

  function BaseOf(elf: Elf, target: word, k: nat): word
    requires k <= |elf|
  {
    W(target + TextBefore(elf, k))
  }

  /** The address at which the layout pass loads section k. */
  function LoadAddress(elf: Elf, target: word, k: nat): word
    requires k < |elf|
  {
    Destination(BaseOf(elf, target, k), elf[k])
  }

  /** The state of the pass when it has come to section i. */
  ghost predicate Reached(elf: Elf, target: word, limit: word, i: nat, p: Placement)
    requires i <= |elf|
  {
    && |p.dests| == |elf|
    && p.base == BaseOf(elf, target, i)
    && (forall k :: 0 <= k < i && elf[k].Placed() ==>
          && (elf[k].IsText() || elf[k].IsData())
          && p.dests[k] == Sub(BaseOf(elf, target, k), Region(elf[k]))
          && target <= LoadAddress(elf, target, k)
          && Plus(LoadAddress(elf, target, k), elf[k].size) <= limit)
    && (forall k :: 0 <= k < i && !elf[k].Placed() ==> p.dests[k] == 0)
    && (forall k :: i <= k < |elf| ==> p.dests[k] == 0)
  }

  lemma NextBase(elf: Elf, target: word, k: nat)
    requires k < |elf|
    ensures BaseOf(elf, target, k + 1) ==
            if elf[k].Placed() && elf[k].IsText() then Plus(BaseOf(elf, target, k), elf[k].size)
            else BaseOf(elf, target, k)
  {
    if elf[k].Placed() && elf[k].IsText() {
      WrapSum(target + TextBefore(elf, k), elf[k].size);
    }
  }

  lemma {:induction false} PlaceReaches(elf: Elf, target: word, limit: word, i: nat, p: Placement, m: Mem)
    requires WellFormed(elf) && i <= |elf| && Reached(elf, target, limit, i, p)
    requires Place(elf, i, target, limit, p, m).0 == Success
    ensures Reached(elf, target, limit, |elf|, Place(elf, i, target, limit, p, m).1)
    decreases |elf| - i
  {
    hide BaseOf, PutBytes, Section.Contents, Section.Placed, Section.IsText, Section.IsData;
    if i < |elf| {
      var r := PlaceOne(elf[i], i, target, limit, p, m);
      NextBase(elf, target, i);
      PlaceReaches(elf, target, limit, i + 1, r.1, r.2);
    }
  }

  /** After a successful layout every placed section has been loaded at its LoadAddress, which passed
      both guards. */
  lemma LayoutFormula(elf: Elf, target: word, limit: word, m: Mem)
    requires WellFormed(elf) && Succeeds(elf, target, limit, m)
    ensures Reached(elf, target, limit, |elf|, Final(elf, target, limit, m))
  {
    PlaceReaches(elf, target, limit, 0, InitialPlacement(elf, target), m);
  }

  // ----- one map for sections and symbols -----

  /** A section that occupies at least one byte of the module. */
  predicate Occupies(s: Section) { s.Placed() && s.size > 0 }

  /** Virtual address v is a byte of section s, in the region (text or data) that s starts in. */
  predicate Holds(s: Section, v: word) {
    && s.address <= v < s.address + s.size
    && (s.IsText() ==> v < 0x10000000)
    && (s.IsData() ==> v < 0xC0000000)
  }

  /** Where the layout pass puts virtual address v of section k. */
  function LoadedAt(elf: Elf, target: word, k: nat, v: word): word
    requires k < |elf|
  {
    Plus(LoadAddress(elf, target, k), Sub(v, elf[k].address))
  }

  /** Every byte of section k is loaded where linking says a symbol with its virtual address is. */
  ghost predicate Agrees(elf: Elf, target: word, baseData: word, k: nat)
    requires k < |elf|
  {
    forall v: word :: Holds(elf[k], v) ==> Resolve(v, target, baseData) == Resolved(LoadedAt(elf, target, k, v))
  }

  /** There is at most one text section that occupies memory, and it is placed before everything else. */
  ghost predicate TextFirst(elf: Elf) {
    forall j, k :: 0 <= j < k < |elf| && Occupies(elf[j]) && Occupies(elf[k]) ==> !elf[k].IsText()
  }

  /** A relocation's place, counted from dests, is the loaded address of the virtual address it names. */
  lemma PlaceIsLoadedAt(elf: Elf, target: word, k: nat, v: word)
    requires k < |elf|
    ensures Plus(Sub(BaseOf(elf, target, k), Region(elf[k])), v) == LoadedAt(elf, target, k, v)
  {
    hide BaseOf;
    var b, a, r := BaseOf(elf, target, k), elf[k].address, Region(elf[k]);
    assert Plus(Sub(Plus(b, a), r), Sub(v, a)) == Plus(Sub(b, r), v) by { Rebase(b, a, r, v); }
  }

  lemma Rebase(b: word, a: word, r: word, v: word)
    ensures Plus(Sub(Plus(b, a), r), Sub(v, a)) == Plus(Sub(b, r), v)
  {
    var x := Plus(b, a);
    assert Plus(x, Sub(v, a)) == Plus(b, v);
    assert Plus(Sub(x, r), Sub(v, a)) == Sub(Plus(x, Sub(v, a)), r);
  }

  /** Agreement at one byte: the base that was used for loading is the base that linking uses. */
  lemma ByteAgrees(elf: Elf, target: word, baseData: word, k: nat, v: word)
    requires k < |elf| && (elf[k].IsText() || elf[k].IsData()) && Holds(elf[k], v)
    ensures Resolve(v, target, baseData) == Resolved(LoadedAt(elf, target, k, v))
            <==> BaseOf(elf, target, k) == if elf[k].IsText() then target else baseData
  {
    hide BaseOf, LoadedAt;
    PlaceIsLoadedAt(elf, target, k, v);
    var b, c, r := BaseOf(elf, target, k), if elf[k].IsText() then target else baseData, Region(elf[k]);
    assert Resolve(v, target, baseData) == Resolved(Plus(Sub(v, r), c));
  }

  lemma SectionAgrees(elf: Elf, target: word, baseData: word, k: nat)
    requires k < |elf| && (elf[k].IsText() || elf[k].IsData()) && elf[k].size > 0
    ensures Agrees(elf, target, baseData, k)
            <==> BaseOf(elf, target, k) == if elf[k].IsText() then target else baseData
  {
    hide BaseOf, LoadedAt, Resolve;
    forall v: word | Holds(elf[k], v)
      ensures Resolve(v, target, baseData) == Resolved(LoadedAt(elf, target, k, v))
              <==> BaseOf(elf, target, k) == if elf[k].IsText() then target else baseData
    {
      ByteAgrees(elf, target, baseData, k, v);
    }
    assert Holds(elf[k], elf[k].address);
  }

  /** No text between sections j and k. */
  ghost predicate NoText(elf: Elf, j: nat, k: nat)
    requires j <= k <= |elf|
  {
    forall i :: j <= i < k && Occupies(elf[i]) ==> !elf[i].IsText()
  }

  lemma {:induction false} TextGrows(elf: Elf, j: nat, k: nat)
    requires j <= k <= |elf|
    ensures TextBefore(elf, j) <= TextBefore(elf, k)
    ensures forall i :: j <= i < k && Occupies(elf[i]) && elf[i].IsText() ==> TextBefore(elf, j) < TextBefore(elf, k)
    ensures (forall i :: j <= i < k && Occupies(elf[i]) ==> !elf[i].IsText()) ==>
              TextBefore(elf, j) == TextBefore(elf, k)
    decreases k - j
  {
    if j < k { TextGrows(elf, j, k - 1); }
  }

  /** As long as the text sizes do not wrap around, two bases are equal exactly when no text lies between
      them. */
  lemma SameBase(elf: Elf, target: word, j: nat, k: nat)
    requires j <= k <= |elf| && TextBefore(elf, |elf|) < 0x1_0000_0000
    ensures BaseOf(elf, target, j) == BaseOf(elf, target, k)
            <==> NoText(elf, j, k)
  {
    hide TextBefore;
    TextGrows(elf, j, k);
    TextGrows(elf, k, |elf|);
    var x, y := TextBefore(elf, j), TextBefore(elf, k);
    WrapInjective(target + x, target + y);
  }

  lemma WrapInjective(x: int, y: int)
    requires x <= y < x + 0x1_0000_0000
    ensures W(x) == W(y) <==> x == y
  {
    var d := y - x;
    WrapSum(x, d);
  }

  /** What agreement of section k asks of the sections around it. */
  ghost predicate NoTextAround(elf: Elf, k: nat)
    requires k < |elf|
  {
    if elf[k].IsText() then NoText(elf, 0, k) else NoText(elf, k, |elf|)
  }

  lemma AgreesAt(elf: Elf, target: word, limit: word, m: Mem, k: nat)
    requires WellFormed(elf) && Succeeds(elf, target, limit, m) && TextBefore(elf, |elf|) < 0x1_0000_0000
    requires k < |elf| && Occupies(elf[k])
    ensures Agrees(elf, target, Final(elf, target, limit, m).base, k) <==> NoTextAround(elf, k)
  {
    hide TextBefore, Agrees, Section.IsText, Section.IsData, BaseOf, Final, NoText;
    LayoutFormula(elf, target, limit, m);
    var n, bd := |elf|, Final(elf, target, limit, m).base;
    assert BaseOf(elf, target, 0) == target by { EmptyBase(elf, target); }
    SectionAgrees(elf, target, bd, k);
    SameBase(elf, target, 0, k);
    SameBase(elf, target, k, n);
  }

  lemma TextFirstMeans(elf: Elf)
    ensures TextFirst(elf) <==> forall k :: 0 <= k < |elf| && Occupies(elf[k]) ==> NoTextAround(elf, k)
  {
    hide Occupies, Section.IsText;
    if !TextFirst(elf) {
      var j, k :| 0 <= j < k < |elf| && Occupies(elf[j]) && Occupies(elf[k]) && elf[k].IsText();
      if elf[j].IsText() {
        assert !NoTextAround(elf, k);
      } else {
        assert !NoTextAround(elf, j);
      }
    }
  }

  /** Loading and symbol resolution are one map, for every section of the module, exactly when the module
      has at most one text section and places it first. */
  lemma MapsAgreeExactly(elf: Elf, target: word, limit: word, m: Mem)
    requires WellFormed(elf) && Succeeds(elf, target, limit, m) && TextBefore(elf, |elf|) < 0x1_0000_0000
    ensures (forall k :: 0 <= k < |elf| && Occupies(elf[k]) ==>
               Agrees(elf, target, Final(elf, target, limit, m).base, k))
            <==> TextFirst(elf)
  {
    hide TextBefore, Agrees, Occupies, Final, NoTextAround, Succeeds;
    forall k | 0 <= k < |elf| && Occupies(elf[k])
      ensures Agrees(elf, target, Final(elf, target, limit, m).base, k) <==> NoTextAround(elf, k)
    {
      AgreesAt(elf, target, limit, m, k);
    }
    TextFirstMeans(elf);
  }

  lemma EmptyBase(elf: Elf, target: word)
    ensures BaseOf(elf, target, 0) == target
  {
  }

  /** The entry point is where the text section holding it is loaded. */
  lemma EntryPointAgrees(elf: Elf, target: word, limit: word, m: Mem, k: nat, entry: word)
    requires WellFormed(elf) && Succeeds(elf, target, limit, m) && TextBefore(elf, |elf|) < 0x1_0000_0000
    requires TextFirst(elf) && k < |elf| && Occupies(elf[k]) && elf[k].IsText() && Holds(elf[k], entry)
    ensures Sub(Plus(target, entry), 0x02000000) == LoadedAt(elf, target, k, entry)
  {
    hide TextBefore, BaseOf, LoadedAt, LoadAddress, Final;
    MapsAgreeExactly(elf, target, limit, m);
    assert Agrees(elf, target, Final(elf, target, limit, m).base, k);
  }

  // ----- the window -----

  lemma {:induction false} RoomCovers(elf: Elf, k: nat)
    requires k <= |elf|
    ensures TextBefore(elf, k) <= Room(elf[..k]) <= Room(elf)
    ensures forall i :: 0 <= i < k && elf[i].Allocated() ==> elf[i].size < Room(elf[..k])
    decreases |elf|, k
  {
    if k > 0 {
      RoomCovers(elf, k - 1);
      assert elf[..k][..k - 1] == elf[..k - 1];
    }
    if k < |elf| {
      var rest := elf[..|elf| - 1];
      RoomCovers(rest, k);
      assert rest[..k] == elf[..k];
    } else {
      assert elf[..k] == elf;
    }
  }

  /** Section k is loaded inside [target, limit), as true integers. */
  predicate InWindow(elf: Elf, target: word, limit: word, k: nat)
    requires k < |elf|
  {
    target <= LoadAddress(elf, target, k) && LoadAddress(elf, target, k) + elf[k].size <= limit
  }

  /** The guards of the layout pass keep a section in the window exactly when the sum in the second guard
      does not wrap around. */
  lemma GuardExact(elf: Elf, target: word, limit: word, m: Mem, k: nat)
    requires WellFormed(elf) && Succeeds(elf, target, limit, m) && k < |elf| && elf[k].Placed()
    ensures InWindow(elf, target, limit, k) <==> LoadAddress(elf, target, k) + elf[k].size < 0x1_0000_0000
  {
    hide LoadAddress;
    LayoutFormula(elf, target, limit, m);
  }

  /** If the room of all sections does not wrap around and fits under a limit that is far from the top of
      memory, a section that passes the guards is inside the window, whatever becomes of the later ones. */
  lemma GuardsContain(elf: Elf, limit: word, k: nat)
    requires Room(elf) <= limit < 0x2800_0000 && k < |elf| && elf[k].Placed() && (elf[k].IsText() || elf[k].IsData())
    requires var target := TargetAddress(limit, Room(elf));
             target <= LoadAddress(elf, target, k) && Plus(LoadAddress(elf, target, k), elf[k].size) <= limit
    ensures InWindow(elf, TargetAddress(limit, Room(elf)), limit, k)
  {
    hide TextBefore, Room, And, LoadAddress, Section.Placed, Section.Allocated, Section.IsText, Section.IsData,
         TargetAddress;
    var target := TargetAddress(limit, Room(elf));
    TargetBelow(limit, Room(elf));
    RoomCovers(elf, |elf|);
    assert elf[..|elf|] == elf;
    PlacedAllocated(elf[k]);
    LoadBound(elf, target, limit, k);
  }

  /** After a successful layout every section is inside the window. */
  lemma WindowContains(elf: Elf, limit: word, m: Mem, k: nat)
    requires WellFormed(elf) && Room(elf) <= limit < 0x2800_0000
    requires Succeeds(elf, TargetAddress(limit, Room(elf)), limit, m) && k < |elf| && elf[k].Placed()
    ensures InWindow(elf, TargetAddress(limit, Room(elf)), limit, k)
  {
    hide Room, And, LoadAddress, Section.Placed, Section.Allocated, Final, TargetAddress, Succeeds, BaseOf;
    LayoutFormula(elf, TargetAddress(limit, Room(elf)), limit, m);
    GuardsContain(elf, limit, k);
  }

  lemma PlacedAllocated(s: Section)
    requires s.Placed()
    ensures s.Allocated()
  {
  }

  lemma LoadBound(elf: Elf, target: word, limit: word, k: nat)
    requires k < |elf| && Room(elf) <= limit < 0x2800_0000 && target + Room(elf) <= limit
    requires elf[k].IsText() || elf[k].IsData()
    ensures LoadAddress(elf, target, k) < 0xB000_0000 + limit
  {
    hide TextBefore, Room;
    RoomCovers(elf, k);
  }

  /** Rounding down to a multiple of 0x100 leaves room for the module and at most 0xFF bytes more. */
  lemma TargetBelow(limit: word, room: word)
    requires room <= limit
    ensures TargetAddress(limit, room) % 0x100 == 0
    ensures limit - room - 0x100 < TargetAddress(limit, room) <= limit - room
  {
    hide And;
    AndRound8(limit - room);
  }

  // ----- disjoint sections and the loaded image -----

  /** With the text first and starting at 0x02000000, sections with disjoint virtual addresses are loaded
      at disjoint places of the window. */
  lemma DisjointSections(elf: Elf, limit: word, m: Mem, j: nat, k: nat)
    requires WellFormed(elf) && Room(elf) <= limit < 0x2800_0000
    requires Succeeds(elf, TargetAddress(limit, Room(elf)), limit, m) && TextFirst(elf)
    requires forall i :: 0 <= i < |elf| && Occupies(elf[i]) && elf[i].IsText() ==> elf[i].address == 0x02000000
    requires j < k < |elf| && Occupies(elf[j]) && Occupies(elf[k])
    requires elf[j].address + elf[j].size <= elf[k].address || elf[k].address + elf[k].size <= elf[j].address
    ensures var target := TargetAddress(limit, Room(elf));
            var a, b := LoadAddress(elf, target, j), LoadAddress(elf, target, k);
            && InWindow(elf, target, limit, j) && InWindow(elf, target, limit, k)
            && (a + elf[j].size <= b || b + elf[k].size <= a)
  {
    hide TextBefore, Room, And, LoadAddress, Succeeds, TargetAddress;
    var target := TargetAddress(limit, Room(elf));
    WindowContains(elf, limit, m, j);
    WindowContains(elf, limit, m, k);
    TargetBelow(limit, Room(elf));
    RoomCovers(elf, |elf|);
    assert elf[..|elf|] == elf;
    ExactLoadAddress(elf, limit, m, j);
    ExactLoadAddress(elf, limit, m, k);
    assert !elf[k].IsText();
    if elf[j].IsText() {
      TextThenData(elf, j, k);
    } else {
      DataThenData(elf, j, k);
    }
  }

  /** In the window no address wraps around. */
  lemma ExactLoadAddress(elf: Elf, limit: word, m: Mem, k: nat)
    requires WellFormed(elf) && Room(elf) <= limit < 0x2800_0000
    requires Succeeds(elf, TargetAddress(limit, Room(elf)), limit, m) && k < |elf| && Occupies(elf[k])
    ensures elf[k].IsText() || elf[k].IsData()
    ensures LoadAddress(elf, TargetAddress(limit, Room(elf)), k) ==
            TargetAddress(limit, Room(elf)) + TextBefore(elf, k) + (elf[k].address - Region(elf[k]))
  {
    hide TextBefore, Room, And, Final, TargetAddress;
    var target := TargetAddress(limit, Room(elf));
    LayoutFormula(elf, target, limit, m);
    TargetBelow(limit, Room(elf));
    RoomCovers(elf, k);
    ExactDestination(target + TextBefore(elf, k), elf[k]);
  }

  lemma ExactDestination(b: nat, s: Section)
    requires b < 0x2800_0000 && (s.IsText() || s.IsData())
    ensures Destination(W(b), s) == b + (s.address - Region(s))
  {
  }

  lemma {:induction false} TextThenData(elf: Elf, j: nat, k: nat)
    requires j < k < |elf| && Occupies(elf[j]) && elf[j].IsText() && TextFirst(elf)
    ensures TextBefore(elf, j) == 0 && TextBefore(elf, k) >= elf[j].size
  {
    TextGrows(elf, 0, j);
    TextGrows(elf, j + 1, k);
  }

  lemma DataThenData(elf: Elf, j: nat, k: nat)
    requires j < k < |elf| && Occupies(elf[j]) && !elf[j].IsText() && TextFirst(elf)
    ensures TextBefore(elf, j) == TextBefore(elf, k)
  {
    TextGrows(elf, j, k);
  }

  /** Section k has been copied (or zero-filled) to where it belongs and nothing has overwritten it. */
  ghost predicate HoldsSection(elf: Elf, target: word, k: nat, m: Mem)
    requires WellFormed(elf) && k < |elf|
  {
    GetBytes(m, LoadAddress(elf, target, k), elf[k].size) == elf[k].Contents()
  }

  /** The placed sections up to n are loaded apart from section k. */
  ghost predicate ApartFrom(elf: Elf, target: word, k: nat)
    requires k < |elf|
  {
    forall j :: 0 <= j < |elf| && j != k && elf[j].Placed() ==>
      Disjoint(LoadAddress(elf, target, j), elf[j].size, LoadAddress(elf, target, k), elf[k].size)
  }

  lemma {:induction false} PlaceLoads(elf: Elf, target: word, limit: word, i: nat, p: Placement, m: Mem, k: nat)
    requires WellFormed(elf) && i <= |elf| && |p.dests| == |elf| && p.base == BaseOf(elf, target, i)
    requires Place(elf, i, target, limit, p, m).0 == Success
    requires k < |elf| && elf[k].Placed() && ApartFrom(elf, target, k) && (k < i ==> HoldsSection(elf, target, k, m))
    ensures HoldsSection(elf, target, k, Place(elf, i, target, limit, p, m).2)
    decreases |elf| - i
  {
    hide BaseOf, PutBytes, GetBytes, Section.Contents, Section.Placed, Section.IsText, Section.IsData, Disjoint;
    if i < |elf| {
      var s := elf[i];
      var r := PlaceOne(s, i, target, limit, p, m);
      NextBase(elf, target, i);
      if s.Placed() {
        var d := LoadAddress(elf, target, i);
        assert r.2 == PutBytes(m, d, s.Contents());
        if i == k {
          GetPut(m, d, s.Contents());
        } else {
          GetPutOther(m, d, s.Contents(), LoadAddress(elf, target, k), elf[k].size);
        }
      }
      PlaceLoads(elf, target, limit, i + 1, r.1, r.2, k);
    }
  }

  /** The image after the layout pass holds every section that is loaded apart from the others. */
  lemma ImageHolds(elf: Elf, target: word, limit: word, m: Mem, k: nat)
    requires WellFormed(elf) && Succeeds(elf, target, limit, m) && k < |elf| && elf[k].Placed()
    requires ApartFrom(elf, target, k)
    ensures HoldsSection(elf, target, k, Image(elf, target, limit, m))
  {
    hide Place;
    EmptyBase(elf, target);
    PlaceLoads(elf, target, limit, 0, InitialPlacement(elf, target), m, k);
  }
}

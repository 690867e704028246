/** Note sections: add_note writes records, process_section finds them again, get_note reads them. */
module Notes {
  import opened Bits
  import opened Memory
  import opened Wrappers
  import opened Endianness
  import opened ElfFile
  import opened SectionData

  datatype Note = Note(kind: word, name: seq<byte>, desc: seq<byte>)

  function RoundUp(n: nat): (r: nat)
    ensures n <= r < n + 4 && r % 4 == 0
  {
    (n + 3) / 4 * 4
  }

  function Pad(n: nat): (r: seq<byte>)
    ensures |r| == RoundUp(n) - n
  {
    seq(RoundUp(n) - n, (i: nat) => 0)
  }

  /** A record: three words, the name with its NUL, the descriptor; the latter two padded. A null
      descriptor pointer leaves `desc` empty whatever descSize says. */
  function RecordBytes(conv: bool, kind: word, name: seq<byte>, desc: seq<byte>, descSize: word): (r: seq<byte>)
    requires |name| + 1 < 0x1_0000_0000
    ensures |r| == 12 + RoundUp(|name| + 1) + RoundUp(|desc|)
  {
    WordBytes(Convert(conv, |name| + 1)) + WordBytes(Convert(conv, descSize)) + WordBytes(Convert(conv, kind))
    + (name + [0] + Pad(|name| + 1)) + (desc + Pad(|desc|))
  }

  /** The lengths of a note's name and descriptor are 32-bit numbers. */
  predicate Small(n: Note) { |n.name| + 1 < 0x1_0000_0000 && |n.desc| < 0x1_0000_0000 }

  function NoteBytes(conv: bool, n: Note): (r: seq<byte>)
    requires Small(n)
    ensures |r| == Length(n)
  {
    RecordBytes(conv, n.kind, n.name, n.desc, |n.desc|)
  }

  function Length(n: Note): nat { 12 + RoundUp(|n.name| + 1) + RoundUp(|n.desc|) }

  function WordAt(conv: bool, s: seq<byte>, at: nat): word
    requires at + 4 <= |s|
  {
    Convert(conv, WordOf(s[at..at + 4]))
  }

  /** A length rounded up to whole words, in 32 bits. */
  function Aligned(n: word): nat { W(n as int + 3) / 4 * 4 }

  /** The record length as process_section computes it, in 32 bits. */
  function Advance(namesz: word, descsz: word): word { W(12 + Aligned(namesz) + Aligned(descsz)) }

  lemma AdvanceExact(namesz: word, descsz: word)
    requires 12 + RoundUp(namesz) + RoundUp(descsz) < 0x1_0000_0000
    ensures Advance(namesz, descsz) == 12 + RoundUp(namesz) + RoundUp(descsz)
    ensures Aligned(namesz) == RoundUp(namesz)
  {
    hide Aligned, RoundUp;
    AlignedExact(namesz);
    AlignedExact(descsz);
  }

  lemma AlignedExact(n: word)
    requires n + 3 < 0x1_0000_0000
    ensures Aligned(n) == RoundUp(n)
  {
  }

  lemma AdvanceInWords(namesz: word, descsz: word)
    ensures Advance(namesz, descsz) % 4 == 0
  {
    var k := 3 + W(namesz as int + 3) / 4 + W(descsz as int + 3) / 4;
    var q := 4 * k / 0x1_0000_0000;
    assert W(4 * k) == 4 * (k - 0x4000_0000 * q);
  }

  // ----- parsing -----

  /** The record at `at` passes the checks of process_section. */
  predicate RecordAt(conv: bool, s: seq<byte>, at: nat) {
    && at + 12 <= |s|
    && WordAt(conv, s, at) < |s| && WordAt(conv, s, at + 4) < |s|
    && at + AdvanceAt(conv, s, at) <= |s|
  }

  function AdvanceAt(conv: bool, s: seq<byte>, at: nat): word
    requires at + 12 <= |s|
  {
    Advance(WordAt(conv, s, at), WordAt(conv, s, at + 4))
  }

  /** The start positions that parsing finds from `at` on; None when the computed record length is 0
      somewhere, because then parsing stays at that record for ever. */
  function Positions(conv: bool, s: seq<byte>, at: nat): Option<seq<nat>>
    decreases |s| - at
  {
    if !RecordAt(conv, s, at) then Some([])
    else if AdvanceAt(conv, s, at) == 0 then None
    else match Positions(conv, s, at + AdvanceAt(conv, s, at))
      case None => None
      case Some(rest) => Some([at] + rest)
  }

  /** The start positions are those of records, at least four bytes apart. */
  lemma {:induction false} PositionsRise(conv: bool, s: seq<byte>, at: nat)
    requires Positions(conv, s, at).Some?
    ensures var r := Positions(conv, s, at).value;
            && (forall i :: 0 <= i < |r| ==> at <= r[i] && RecordAt(conv, s, r[i]))
            && (forall i, j :: 0 <= i < j < |r| ==> r[i] + 4 <= r[j])
    decreases |s| - at
  {
    hide WordAt, Advance;
    if RecordAt(conv, s, at) {
      AdvanceInWords(WordAt(conv, s, at), WordAt(conv, s, at + 4));
      PositionsRise(conv, s, at + AdvanceAt(conv, s, at));
    }
  }

  /** Where parsing from `at` on stops. */
  function End(conv: bool, s: seq<byte>, at: nat): nat
    decreases |s| - at
  {
    if !RecordAt(conv, s, at) || AdvanceAt(conv, s, at) == 0 then at
    else End(conv, s, at + AdvanceAt(conv, s, at))
  }

  /** Contents that are parsed to their end. */
  predicate Whole(conv: bool, s: seq<byte>) { Positions(conv, s, 0).Some? && End(conv, s, 0) == |s| }

  /** The greatest size of a section on which parsing always terminates. */
  const MAX_SIZE: nat := 0x7FFF_FFF9

  lemma SmallAdvance(conv: bool, s: seq<byte>, at: nat)
    requires |s| <= MAX_SIZE && RecordAt(conv, s, at)
    ensures at + 12 <= |s| && AdvanceAt(conv, s, at) >= 12 && at + AdvanceAt(conv, s, at) <= |s|
  {
    hide WordAt, Advance, RoundUp;
    AdvanceExact(WordAt(conv, s, at), WordAt(conv, s, at + 4));
  }

  /** Up to that size parsing terminates, with start positions at least 12 bytes apart. */
  lemma {:induction false} ParsesUpToMax(conv: bool, s: seq<byte>, at: nat)
    requires |s| <= MAX_SIZE
    ensures Positions(conv, s, at).Some?
    ensures var r := Positions(conv, s, at).value;
            && (forall i :: 0 <= i < |r| ==> at <= r[i])
            && (forall i, j :: 0 <= i < j < |r| ==> r[i] + 12 <= r[j])
    decreases |s| - at
  {
    hide RecordAt, AdvanceAt;
    if RecordAt(conv, s, at) {
      SmallAdvance(conv, s, at);
      ParsesUpToMax(conv, s, at + AdvanceAt(conv, s, at));
    }
  }

  /** A section of n bytes whose first record has a computed length of 0. */
  function Stalling(conv: bool, n: nat): (s: seq<byte>)
    requires n >= 12
    ensures |s| == n
  {
    WordBytes(Convert(conv, 0x7FFF_FFF9)) + WordBytes(Convert(conv, 0x7FFF_FFF5)) + seq(n - 8, (i: nat) => 0)
  }

  lemma StallingStalls(conv: bool, n: nat)
    requires n > MAX_SIZE
    ensures var s := Stalling(conv, n);
            RecordAt(conv, s, 0) && AdvanceAt(conv, s, 0) == 0 && Positions(conv, s, 0).None?
  {
    hide WordOf, WordBytes, Convert;
    var s := Stalling(conv, n);
    assert s[0..4] == WordBytes(Convert(conv, 0x7FFF_FFF9)) && s[4..8] == WordBytes(Convert(conv, 0x7FFF_FFF5));
    WordReads(conv, s, 0, 0x7FFF_FFF9);
    WordReads(conv, s, 4, 0x7FFF_FFF5);
  }

  /** Parsing terminates for all contents of a size exactly up to MAX_SIZE, which is below 2 GiB. */
  lemma TerminatesExactly(conv: bool, n: nat)
    ensures (forall s: seq<byte> :: |s| == n ==> Positions(conv, s, 0).Some?) <==> n <= MAX_SIZE
  {
    hide Positions;
    if n <= MAX_SIZE {
      forall s: seq<byte> | |s| == n ensures Positions(conv, s, 0).Some? { ParsesUpToMax(conv, s, 0); }
    } else {
      StallingStalls(conv, n);
    }
  }

  /** There are fewer start positions than bytes. */
  lemma FewerThanBytes(conv: bool, s: seq<byte>)
    requires s != [] && Positions(conv, s, 0).Some?
    ensures |Positions(conv, s, 0).value| < |s|
  {
    var r := Positions(conv, s, 0).value;
    PositionsRise(conv, s, 0);
    if r != [] { PositionsSpread(conv, s, 0, |r| - 1); }
  }

  lemma {:induction false} PositionsSpread(conv: bool, s: seq<byte>, at: nat, i: nat)
    requires Positions(conv, s, at).Some? && i < |Positions(conv, s, at).value|
    ensures at + 4 * i <= Positions(conv, s, at).value[i]
    decreases i
  {
    hide RecordAt;
    PositionsRise(conv, s, at);
    if i > 0 { PositionsSpread(conv, s, at, i - 1); }
  }

  // ----- reading -----

  /** What get_note does: it returns a note, refuses, or reads outside the section or the vector of start
      positions. */
  datatype Reading = Found(note: Note) | Refused | OutOfBounds

  /** get_note at a start position. */
  function NoteAt(conv: bool, s: seq<byte>, at: nat): Reading {
    if at + 12 > |s| then OutOfBounds
    else
      var namesz, descsz := WordAt(conv, s, at), WordAt(conv, s, at + 4);
      var room, d := |s| - at, at + 12 + Aligned(namesz);
      if namesz < 1 || namesz > room || namesz + descsz > room then Refused
      else if at + 12 + namesz - 1 > |s| || (descsz > 0 && d + descsz > |s|) then OutOfBounds
      else
        var desc := if descsz == 0 then [] else s[d..d + descsz];
        Found(Note(WordAt(conv, s, at + 8), s[at + 12..at + 12 + namesz - 1], desc))
  }

  /** get_note by index: the index is compared with the size of the section. */
  function Lookup(conv: bool, s: seq<byte>, startPositions: seq<nat>, index: nat): Reading {
    if index >= |s| then Refused
    else if index >= |startPositions| then OutOfBounds
    else NoteAt(conv, s, startPositions[index])
  }

  /** A record that is recognised lies within the section. */
  lemma RecordFits(conv: bool, s: seq<byte>, at: nat)
    requires |s| <= MAX_SIZE && RecordAt(conv, s, at)
    ensures NoteAt(conv, s, at) != OutOfBounds
  {
    hide WordAt, Aligned, RoundUp, Advance;
    AdvanceExact(WordAt(conv, s, at), WordAt(conv, s, at + 4));
  }

  /** get_note reads outside the vector of start positions exactly for the indices from the number of notes
      up to the size of the section, of which there are some in every non-empty section. */
  lemma OutOfBoundsExactly(conv: bool, s: seq<byte>, index: nat)
    requires |s| <= MAX_SIZE
    ensures Positions(conv, s, 0).Some?
    ensures var r := Positions(conv, s, 0).value;
            && (Lookup(conv, s, r, index) == OutOfBounds <==> |r| <= index < |s|)
            && (s != [] ==> Lookup(conv, s, r, |r|) == OutOfBounds)
  {
    hide NoteAt, RecordAt, Positions;
    ParsesUpToMax(conv, s, 0);
    PositionsRise(conv, s, 0);
    var r := Positions(conv, s, 0).value;
    if s != [] { FewerThanBytes(conv, s); }
    if index < |r| { RecordFits(conv, s, r[index]); }
  }

  // ----- printing and parsing -----

  lemma WordReads(conv: bool, s: seq<byte>, at: nat, x: word)
    requires at + 4 <= |s| && s[at..at + 4] == WordBytes(Convert(conv, x))
    ensures WordAt(conv, s, at) == x
  {
    hide WordOf, WordBytes, Convert;
    WordRoundTrip(Convert(conv, x));
    ConvertTwice(conv, x);
  }

  lemma Header(bs: seq<byte>, p: seq<byte>, q: seq<byte>, r: seq<byte>, rest: seq<byte>)
    requires |p| == |q| == |r| == 4 && bs == p + q + r + rest
    ensures bs[0..4] == p && bs[4..8] == q && bs[8..12] == r && bs[12..] == rest
  {
  }

  /** The words of a printed record behind s are read back. */
  lemma HeaderReadsBack(conv: bool, s: seq<byte>, kind: word, name: seq<byte>, desc: seq<byte>, descSize: word)
    requires |name| + 1 < 0x1_0000_0000
    ensures var t := s + RecordBytes(conv, kind, name, desc, descSize);
            WordAt(conv, t, |s|) == |name| + 1 && WordAt(conv, t, |s| + 4) == descSize
                && WordAt(conv, t, |s| + 8) == kind
  {
    hide WordOf, WordBytes, Convert, Pad, RoundUp, WordAt;
    var bs, at := RecordBytes(conv, kind, name, desc, descSize), |s|;
    var t := s + bs;
    var p, q, r := WordBytes(Convert(conv, |name| + 1)), WordBytes(Convert(conv, descSize)),
        WordBytes(Convert(conv, kind));
    var body := (name + [0] + Pad(|name| + 1)) + (desc + Pad(|desc|));
    assert bs == p + q + r + body;
    Header(bs, p, q, r, body);
    assert t[at..at + 4] == bs[0..4] && t[at + 4..at + 8] == bs[4..8] && t[at + 8..at + 12] == bs[8..12];
    WordReads(conv, t, at, |name| + 1);
    WordReads(conv, t, at + 4, descSize);
    WordReads(conv, t, at + 8, kind);
  }

  lemma FirstOfTail(t: seq<byte>, pre: seq<byte>, a: seq<byte>, rest: seq<byte>)
    requires t == pre + (a + rest)
    ensures t[|pre|..|pre| + |a|] == a
  {
  }

  /** The name and the descriptor of a printed record are where get_note looks for them. */
  lemma BodyReadsBack(conv: bool, s: seq<byte>, n: Note)
    requires Small(n)
    ensures var t, at := s + NoteBytes(conv, n), |s|;
            var d := at + 12 + RoundUp(|n.name| + 1);
            && t[at + 12..at + 12 + |n.name|] == n.name
            && d + |n.desc| <= |t| && t[d..d + |n.desc|] == n.desc
  {
    hide WordBytes, Convert, Pad, RoundUp;
    var t := s + NoteBytes(conv, n);
    var header := WordBytes(Convert(conv, |n.name| + 1)) + WordBytes(Convert(conv, |n.desc|))
        + WordBytes(Convert(conv, n.kind));
    var name, pad, padding := n.name + [0] + Pad(|n.name| + 1), [0] + Pad(|n.name| + 1), Pad(|n.desc|);
    assert n.name + pad == name;
    assert t == s + header + (n.name + (pad + (n.desc + padding)));
    FirstOfTail(t, s + header, n.name, pad + (n.desc + padding));
    assert t == s + header + name + (n.desc + padding);
    FirstOfTail(t, s + header + name, n.desc, padding);
  }

  /** get_note on a record whose parts are where they belong. */
  lemma ReadsNote(conv: bool, t: seq<byte>, at: nat, n: Note)
    requires Small(n) && at + Length(n) == |t| < 0x1_0000_0000
    requires WordAt(conv, t, at) == |n.name| + 1 && WordAt(conv, t, at + 4) == |n.desc|
             && WordAt(conv, t, at + 8) == n.kind
    requires var d := at + 12 + RoundUp(|n.name| + 1);
             t[at + 12..at + 12 + |n.name|] == n.name && t[d..d + |n.desc|] == n.desc
    ensures NoteAt(conv, t, at) == Found(n)
  {
    hide WordAt, Aligned, RoundUp;
    AlignedExact(|n.name| + 1);
  }

  /** A record printed at the end is recognised and read back. */
  lemma RecordReadsBack(conv: bool, s: seq<byte>, n: Note)
    requires Small(n) && |s| + Length(n) < 0x1_0000_0000
    ensures var t := s + NoteBytes(conv, n);
            && RecordAt(conv, t, |s|) && AdvanceAt(conv, t, |s|) == Length(n)
            && NoteAt(conv, t, |s|) == Found(n)
  {
    hide WordAt, RecordBytes, RoundUp, Advance, NoteAt;
    HeaderReadsBack(conv, s, n.kind, n.name, n.desc, |n.desc|);
    AdvanceExact(|n.name| + 1, |n.desc|);
    BodyReadsBack(conv, s, n);
    ReadsNote(conv, s + NoteBytes(conv, n), |s|, n);
  }

  /** Bytes behind the contents do not change what is recognised in them. */
  lemma RecordStays(conv: bool, s: seq<byte>, more: seq<byte>, at: nat)
    requires RecordAt(conv, s, at)
    ensures RecordAt(conv, s + more, at) && AdvanceAt(conv, s + more, at) == AdvanceAt(conv, s, at)
  {
    hide WordAt, Advance;
    WordStays(conv, s, more, at);
    WordStays(conv, s, more, at + 4);
  }

  lemma WordStays(conv: bool, s: seq<byte>, more: seq<byte>, at: nat)
    requires at + 4 <= |s|
    ensures WordAt(conv, s + more, at) == WordAt(conv, s, at)
  {
    assert (s + more)[at..at + 4] == s[at..at + 4];
  }

  lemma SliceStays(s: seq<byte>, more: seq<byte>, a: nat, b: nat)
    requires a <= b <= |s|
    ensures (s + more)[a..b] == s[a..b]
  {
  }

  lemma FoundStays(conv: bool, s: seq<byte>, more: seq<byte>, at: nat)
    ensures NoteAt(conv, s, at).Found? ==> NoteAt(conv, s + more, at) == NoteAt(conv, s, at)
  {
    hide WordAt, Aligned;
    if NoteAt(conv, s, at).Found? {
      WordStays(conv, s, more, at);
      WordStays(conv, s, more, at + 4);
      WordStays(conv, s, more, at + 8);
      var namesz, descsz := WordAt(conv, s, at), WordAt(conv, s, at + 4);
      var d := at + 12 + Aligned(namesz);
      SliceStays(s, more, at + 12, at + 12 + namesz - 1);
      if descsz > 0 { SliceStays(s, more, d, d + descsz); }
    }
  }

  /** One step of parsing. */
  lemma ParseOne(conv: bool, s: seq<byte>, at: nat)
    ensures RecordAt(conv, s, at) ==> at + 12 <= |s| && at + AdvanceAt(conv, s, at) <= |s|
    ensures RecordAt(conv, s, at) && Positions(conv, s, at).Some? ==>
              var next := at + AdvanceAt(conv, s, at);
              next > at && Positions(conv, s, at) == Prepend([at], Positions(conv, s, next))
                  && End(conv, s, at) == End(conv, s, next)
    ensures !RecordAt(conv, s, at) ==> Positions(conv, s, at) == Some([]) && End(conv, s, at) == at
    ensures RecordAt(conv, s, at) && AdvanceAt(conv, s, at) > 0 ==>
              var next := at + AdvanceAt(conv, s, at);
              Positions(conv, s, at) == Prepend([at], Positions(conv, s, next))
                  && End(conv, s, at) == End(conv, s, next)
  {
    hide WordAt, Advance;
  }

  /** Parsing longer contents goes on where parsing the shorter ones stopped. */
  lemma {:induction false} ParsesOn(conv: bool, s: seq<byte>, more: seq<byte>, at: nat)
    requires Positions(conv, s, at).Some? && Positions(conv, s + more, End(conv, s, at)).Some?
    ensures Positions(conv, s + more, at) ==
            Prepend(Positions(conv, s, at).value, Positions(conv, s + more, End(conv, s, at)))
    ensures End(conv, s + more, at) == End(conv, s + more, End(conv, s, at))
    decreases |s| - at
  {
    hide RecordAt, AdvanceAt, Positions, End;
    ParseOne(conv, s, at);
    if RecordAt(conv, s, at) {
      RecordStays(conv, s, more, at);
      ParseOne(conv, s + more, at);
      var next := at + AdvanceAt(conv, s, at);
      ParsesOn(conv, s, more, next);
      var first, rest := Positions(conv, s, next).value, Positions(conv, s + more, End(conv, s, at)).value;
      assert [at] + (first + rest) == [at] + first + rest;
    } else {
      PrependNothing(Positions(conv, s + more, at));
    }
  }

  /** A note added to whole contents is found behind the others, and nothing else is. */
  lemma AddedNote(conv: bool, s: seq<byte>, n: Note)
    requires Whole(conv, s) && Small(n) && |s| + Length(n) < 0x1_0000_0000
    ensures var t := s + NoteBytes(conv, n);
            && Whole(conv, t)
            && Positions(conv, t, 0) == Some(Positions(conv, s, 0).value + [|s|])
            && NoteAt(conv, t, |s|) == Found(n)
  {
    hide RecordAt, NoteAt, NoteBytes, Length, AdvanceAt;
    var t := s + NoteBytes(conv, n);
    RecordReadsBack(conv, s, n);
    NothingAtEnd(conv, t);
    LengthPositive(n);
    assert Positions(conv, t, |s|) == Some([|s|] + []);
    assert [|s|] + [] == [|s|];
    ParsesOn(conv, s, NoteBytes(conv, n), 0);
  }

  lemma NothingAtEnd(conv: bool, s: seq<byte>)
    ensures Positions(conv, s, |s|) == Some([]) && End(conv, s, |s|) == |s| && !RecordAt(conv, s, |s|)
  {
  }

  lemma LengthPositive(n: Note)
    ensures Length(n) >= 12
  {
  }

  /** A null descriptor with a non-zero size: the record that is written is not found by parsing, although
      its start position is kept. */
  lemma NullDescriptorIsLost(conv: bool, s: seq<byte>, kind: word, name: seq<byte>, descSize: word)
    requires Whole(conv, s) && descSize > 0 && |name| + 1 < 0x1_0000_0000
    requires |s| + |RecordBytes(conv, kind, name, [], descSize)| <= MAX_SIZE
    ensures Positions(conv, s + RecordBytes(conv, kind, name, [], descSize), 0) == Positions(conv, s, 0)
  {
    hide RecordBytes, Advance, WordAt;
    var bs := RecordBytes(conv, kind, name, [], descSize);
    HeaderReadsBack(conv, s, kind, name, [], descSize);
    if descSize < |s + bs| { AdvanceExact(|name| + 1, descSize); }
    assert !RecordAt(conv, s + bs, |s|);
    assert Positions(conv, s + bs, |s|) == Some([]);
    ParsesOn(conv, s, bs, 0);
    assert Positions(conv, s, 0).value + [] == Positions(conv, s, 0).value;
  }

  // ----- runs of additions -----

  predicate AllSmall(ns: seq<Note>) { forall i :: 0 <= i < |ns| ==> Small(ns[i]) }

  /** The contents after adding ns to an empty section. */
  function AllBytes(conv: bool, ns: seq<Note>): seq<byte>
    requires AllSmall(ns)
  {
    if ns == [] then [] else AllBytes(conv, ns[..|ns| - 1]) + NoteBytes(conv, ns[|ns| - 1])
  }

  /** The start positions kept. */
  function Starts(conv: bool, ns: seq<Note>): (r: seq<nat>)
    requires AllSmall(ns)
    ensures |r| == |ns|
  {
    if ns == [] then [] else Starts(conv, ns[..|ns| - 1]) + [|AllBytes(conv, ns[..|ns| - 1])|]
  }

  /** From an empty section, after any additions: reparsing finds the start positions that were kept, and
      get_note returns the notes in order. */
  lemma {:induction false} NotesRoundTrip(conv: bool, ns: seq<Note>, i: nat)
    requires AllSmall(ns) && |AllBytes(conv, ns)| < 0x1_0000_0000
    ensures Whole(conv, AllBytes(conv, ns)) && Positions(conv, AllBytes(conv, ns), 0) == Some(Starts(conv, ns))
    ensures i < |ns| ==> Lookup(conv, AllBytes(conv, ns), Starts(conv, ns), i) == Found(ns[i])
    decreases |ns|
  {
    hide NoteBytes, NoteAt, Positions, End, Small;
    if ns == [] {
      NothingAtEnd(conv, []);
    } else {
      var n, some := |ns| - 1, ns[..|ns| - 1];
      NotesRoundTrip(conv, some, i);
      AddedNote(conv, AllBytes(conv, some), ns[n]);
      FewerThanBytes(conv, AllBytes(conv, ns));
      if i < n { FoundStays(conv, AllBytes(conv, some), NoteBytes(conv, ns[n]), Starts(conv, some)[i]); }
    }
  }

  // ----- the accessor -----

  method ReadWord(section: SectionBuffer, conv: bool, at: nat) returns (x: word)
    requires section.Valid() && at + 4 <= section.size
    ensures x == WordAt(conv, section.Contents(), at)
  {
    assert section.data[at..at + 4] == section.Contents()[at..at + 4];
    x := Convert(conv, WordOf(section.data[at..at + 4]));
  }

  /** process_section; None stands for the loop that never ends. */
  method ProcessSection(section: SectionBuffer, conv: bool) returns (startPositions: Option<seq<nat>>)
    requires section.Valid()
    ensures startPositions == Positions(conv, section.Contents(), 0)
  {
    hide WordAt, Advance, Positions, Convert, WordOf, RecordAt;
    var current: nat := 0;
    var found: seq<nat> := [];
    ghost var s := section.Contents();
    PrependNothing(Positions(conv, s, 0));
    while current + 12 <= section.size
      invariant Positions(conv, s, 0) == Prepend(found, Positions(conv, s, current))
      decreases section.size - current
    {
      var namesz := ReadWord(section, conv, current);
      var descsz := ReadWord(section, conv, current + 4);
      var advance := Advance(namesz, descsz);
      ParseStep(conv, s, current, found);
      if namesz < section.size && descsz < section.size && current + advance <= section.size {
        found := found + [current];
      } else {
        return Some(found);
      }
      if advance == 0 { return None; }
      current := current + advance;
    }
    ParseStops(conv, s, current, found);
    startPositions := Some(found);
  }

  lemma ParseStep(conv: bool, s: seq<byte>, at: nat, found: seq<nat>)
    requires at + 12 <= |s|
    ensures RecordAt(conv, s, at) <==>
            WordAt(conv, s, at) < |s| && WordAt(conv, s, at + 4) < |s|
            && at + Advance(WordAt(conv, s, at), WordAt(conv, s, at + 4)) <= |s|
    ensures var advance := Advance(WordAt(conv, s, at), WordAt(conv, s, at + 4));
            Prepend(found, Positions(conv, s, at)) ==
            if !RecordAt(conv, s, at) then Some(found)
            else if advance == 0 then None
            else Prepend(found + [at], Positions(conv, s, at + advance))
  {
    hide WordAt, Advance;
    assert found + [] == found;
    if RecordAt(conv, s, at) && AdvanceAt(conv, s, at) != 0 {
      var r := Positions(conv, s, at + AdvanceAt(conv, s, at));
      if r.Some? { assert found + ([at] + r.value) == found + [at] + r.value; }
    }
  }

  lemma ParseStops(conv: bool, s: seq<byte>, at: nat, found: seq<nat>)
    requires at + 12 > |s|
    ensures Prepend(found, Positions(conv, s, at)) == Some(found)
  {
    assert found + [] == found;
  }

  class NoteAccessor {
    const section: SectionBuffer
    const conv: bool
    var startPositions: seq<nat>

    /** The start positions are those of the records, which fill the section. */
    ghost predicate Valid()
      reads this, section, section.data
    {
      && section.Valid() && section.kind != SHT_NOBITS
      && Whole(conv, section.Contents()) && Positions(conv, section.Contents(), 0) == Some(startPositions)
    }

    /** Parses the section, whatever is in it, if parsing terminates. */
    constructor (section: SectionBuffer, conv: bool)
      requires section.Valid() && Positions(conv, section.Contents(), 0).Some?
      ensures this.section == section && this.conv == conv
      ensures Positions(conv, section.Contents(), 0) == Some(startPositions)
      ensures section.kind != SHT_NOBITS && Whole(conv, section.Contents()) ==> Valid()
    {
      this.section, this.conv := section, conv;
      var positions := ProcessSection(section, conv);
      startPositions := positions.value;
    }

    method GetNote(index: word) returns (r: Reading)
      requires section.Valid()
      ensures r == Lookup(conv, section.Contents(), startPositions, index)
    {
      hide WordAt, Aligned;
      if index >= section.size { return Refused; }
      if index >= |startPositions| { return OutOfBounds; }
      var s, at := section.Contents(), startPositions[index];
      if at + 12 > section.size { return OutOfBounds; }
      var kind := ReadWord(section, conv, at + 8);
      var namesz := ReadWord(section, conv, at);
      var descSize := ReadWord(section, conv, at + 4);
      var maxNameSize := section.size - at;
      if namesz < 1 || namesz > maxNameSize || namesz + descSize > maxNameSize { return Refused; }
      var d := at + 12 + Aligned(namesz);
      if at + 12 + namesz - 1 > section.size || (descSize > 0 && d + descSize > section.size) { return OutOfBounds; }
      var desc: seq<byte> := [];
      if descSize != 0 { desc := s[d..d + descSize]; }
      r := Found(Note(kind, s[at + 12..at + 12 + namesz - 1], desc));
    }

    /** add_note; desc is None for a null pointer. */
    method AddNote(kind: word, name: seq<byte>, desc: Option<seq<byte>>, descSize: word)
      requires section.Valid() && section.kind != SHT_NOBITS
      requires |name| + 1 < 0x1_0000_0000 && (desc.Some? ==> |desc.value| == descSize)
      requires section.HasRoom(12 + RoundUp(|name| + 1) + if desc.Some? then RoundUp(descSize) else 0)
      modifies this, section, section.data
      ensures section.Valid() && (fresh(section.data) || section.data == old(section.data))
      ensures section.Contents() ==
              old(section.Contents()) + RecordBytes(conv, kind, name, if desc.Some? then desc.value else [], descSize)
      ensures startPositions == old(startPositions) + [old(section.size)]
      ensures old(Valid()) && (desc.Some? || descSize == 0) ==>
                && Valid()
                && var n := Note(kind, name, if desc.Some? then desc.value else []);
                   NoteAt(conv, section.Contents(), old(section.size)) == Found(n)
      ensures forall at: nat {:trigger NoteAt(conv, section.Contents(), at)} ::
                NoteAt(conv, old(section.Contents()), at).Found? ==>
                NoteAt(conv, section.Contents(), at) == NoteAt(conv, old(section.Contents()), at)
    {
      hide RecordBytes, NoteAt, Whole, Positions, RoundUp;
      ghost var was, whole := section.Contents(), Valid();
      var bytes := if desc.Some? then desc.value else [];
      var buffer := RecordBytes(conv, kind, name, bytes, descSize);
      NoRounding(desc, descSize);
      startPositions := startPositions + [section.size];
      ghost var moved;
      var ok;
      ok, moved := section.AppendData(buffer);
      if whole && (desc.Some? || descSize == 0) {
        AddedNote(conv, was, Note(kind, name, bytes));
      }
      forall at: nat
        ensures NoteAt(conv, was, at).Found? ==> NoteAt(conv, section.Contents(), at) == NoteAt(conv, was, at)
      {
        FoundStays(conv, was, buffer, at);
      }
    }
  }

  lemma NoRounding(desc: Option<seq<byte>>, descSize: word)
    ensures RoundUp(0) == 0
  {
  }
}

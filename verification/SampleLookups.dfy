/** Small hash sections whose lookups are told in numbers. */
module SampleLookups {
  import opened Bits
  import opened Wrappers
  import opened Hashing
  import opened SymbolLookup

  // ----- hash values -----

  /** While nothing reaches the top nibble, a character is appended as four more bits. */
  lemma SmallStep(s: Name, c: byte, h: word, t: Name)
    requires SysvHash(s) == h && h < 0xFF_FFF0 && t == s + [c]
    ensures SysvHash(t) == h * 16 + c
  {
    hide Xor, SysvStep;
    assert t[..|s|] == s;
    AppendNibble(h, c);
  }

  lemma AppendNibble(h: word, c: byte)
    requires h < 0xFF_FFF0
    ensures SysvStep(h, c) == h * 16 + c
  {
    hide Xor;
    XorNothing(h * 16 + c);
  }

  lemma XorNothing(x: nat)
    ensures Xor(x, 0) == x
  {
  }

  lemma EmptyHashes()
    ensures SysvHash([]) == 0 && GnuHash([]) == 5381
  {
    assert Pow33(0) == 1 && Base33([]) == 0;
  }

  /** The hashes of "printf". */
  lemma KnownSysvHash()
    ensures SysvHash([0x70, 0x72, 0x69, 0x6E, 0x74, 0x66]) == 0x0779_05A6
  {
    hide SysvHash;
    EmptyHashes();
    SmallStep([], 0x70, 0, [0x70]);
    SmallStep([0x70], 0x72, 0x70, [0x70, 0x72]);
    SmallStep([0x70, 0x72], 0x69, 0x772, [0x70, 0x72, 0x69]);
    SmallStep([0x70, 0x72, 0x69], 0x6E, 0x7789, [0x70, 0x72, 0x69, 0x6E]);
    SmallStep([0x70, 0x72, 0x69, 0x6E], 0x74, 0x7_78FE, [0x70, 0x72, 0x69, 0x6E, 0x74]);
    SmallStep([0x70, 0x72, 0x69, 0x6E, 0x74], 0x66, 0x77_9054, [0x70, 0x72, 0x69, 0x6E, 0x74, 0x66]);
  }

  lemma GnuNext(s: Name, c: byte, t: Name, h: word, q: nat, r: word)
    requires t == s + [c] && GnuHash(s) == h && h as nat * 33 + c == q * 0x1_0000_0000 + r
    ensures GnuHash(t) == r
  {
    hide GnuHash;
    GnuStep(s, c);
    WrapMultiple(q, r);
  }

  lemma KnownGnuHash()
    ensures GnuHash([]) == 5381 && GnuHash([0x70, 0x72, 0x69, 0x6E, 0x74, 0x66]) == 0x156B_2BB8
  {
    hide GnuHash;
    EmptyHashes();
    GnuNext([], 0x70, [0x70], 5381, 0, 177685);
    GnuNext([0x70], 0x72, [0x70, 0x72], 177685, 0, 5863719);
    GnuNext([0x70, 0x72], 0x69, [0x70, 0x72, 0x69], 5863719, 0, 193502832);
    GnuNext([0x70, 0x72, 0x69], 0x6E, [0x70, 0x72, 0x69, 0x6E], 193502832, 1, 2090626270);
    GnuNext([0x70, 0x72, 0x69, 0x6E], 0x74, [0x70, 0x72, 0x69, 0x6E, 0x74], 2090626270, 16, 271190290);
    GnuNext([0x70, 0x72, 0x69, 0x6E, 0x74], 0x66, [0x70, 0x72, 0x69, 0x6E, 0x74, 0x66], 271190290, 2, 359345080);
  }

  // ----- a SysV table -----

  /** The null symbol, and symbols "a", "b" and "c". */
  function ThreeNames(): Names { [Some([]), Some([0x61]), Some([0x62]), Some([0x63])] }

  /** Two buckets and four chain entries: "b" is alone in bucket 0, "c" follows "a" in bucket 1. */
  function SysvSample(): HashTable { [2, 4, 2, 1, 0, 3, 0, 0] }

  lemma LetterHashes()
    ensures SysvHash([0x61]) == 0x61 && SysvHash([0x62]) == 0x62 && SysvHash([0x63]) == 0x63
    ensures CString([0x61]) == [0x61] && CString([0x62]) == [0x62] && CString([0x63]) == [0x63] && CString([]) == []
  {
    hide SysvHash;
    EmptyHashes();
    SmallStep([], 0x61, 0, [0x61]);
    SmallStep([], 0x62, 0, [0x62]);
    SmallStep([], 0x63, 0, [0x63]);
    NoNul([0x61]);
    NoNul([0x62]);
    NoNul([0x63]);
  }

  /** It is a complete index of these symbols. */
  lemma SysvSampleIndexes()
    ensures Indexes(SysvSample(), [0, 1, 0, 0], ThreeNames())
  {
    hide SysvHash, CString;
    LetterHashes();
    var d, rank, names := SysvSample(), [0, 1, 0, 0], ThreeNames();
    assert Acyclic(d, rank);
    assert Bucket(d, 0) == 2 && Bucket(d, 1) == 1 && Chain(d, 1) == 3;
    assert OnChain(d, rank, 3, 3);
    assert OnChain(d, rank, 1, 3);
    forall y | 0 < y < |names| && names[y].Some? && names[y].value != []
      ensures OnChain(d, rank, Bucket(d, SysvHash(CString(names[y].value)) % Buckets(d)), y)
    {
      assert y == 1 || y == 2 || y == 3;
    }
  }

  lemma ThreeNamed(y: nat)
    ensures Named(ThreeNames(), y, [0x63]) <==> y == 3
    ensures !Named(ThreeNames(), y, [0x64])
  {
  }

  /** Looking up "c" walks from "a" to symbol 3; "d" is missed. */
  method SysvSampleLookup() returns (c: Lookup, d: Lookup)
    ensures c == Hit(3) && d == Miss
  {
    hide Indexes, Named, ThreeNames, SysvSample, Ends, SysvHash;
    SysvSampleIndexes();
    assert SysvShape(SysvSample()) by { SysvSampleShape(); }
    c := HashLookup(SysvSample(), [0, 1, 0, 0], ThreeNames(), [0x63]);
    d := HashLookup(SysvSample(), [0, 1, 0, 0], ThreeNames(), [0x64]);
    ThreeNamed(3);
    assert |ThreeNames()| == 4 by { ThreeLong(); }
    assert Present(ThreeNames(), [0x63]);
    if c.Hit? { ThreeNamed(c.y); }
    if d.Hit? { ThreeNamed(d.y); }
  }

  lemma SysvSampleShape()
    ensures SysvShape(SysvSample())
  {
  }

  lemma ThreeLong()
    ensures |ThreeNames()| == 4
  {
  }

  // ----- a GNU table -----

  /** The null symbol, "c" and "b", as the order of the buckets has it. */
  function TwoNames(): Names { [Some([]), Some([0x63]), Some([0x62])] }

  /** Two buckets, and a Bloom filter of two words of which the second is empty. */
  function GnuSample(): GnuTable { GnuTable(32, 1, 5, [0x1_0180, 0], [1, 2], [177673, 177671]) }

  lemma LetterGnuHashes()
    ensures GnuHash(CString([0x62])) == 177671 && GnuHash(CString([0x63])) == 177672
            && GnuHash(CString([0x64])) == 177673
  {
    hide GnuHash;
    EmptyHashes();
    NoNul([0x62]);
    NoNul([0x63]);
    NoNul([0x64]);
    GnuNext([], 0x62, [0x62], 5381, 0, 177671);
    GnuNext([], 0x63, [0x63], 5381, 0, 177672);
    GnuNext([], 0x64, [0x64], 5381, 0, 177673);
  }

  /** Bit k of a number is the lowest bit of its quotient by 2 to the k. */
  lemma {:induction false} BitAbove(x: nat, k: nat, q: nat, r: nat)
    requires x == q * Pow2(k) + r && r < Pow2(k)
    ensures Bit(x, k) == (q % 2 == 1)
    decreases k
  {
    if k > 0 {
      var p := Pow2(k - 1);
      assert q * (2 * p) == 2 * (q * p);
      BitAbove(x / 2, k - 1, q, r / 2);
    }
  }

  lemma SampleBits()
    ensures Bit(0x1_0180, 7) && Bit(0x1_0180, 8) && !Bit(0x1_0180, 9) && Bit(0x1_0180, 16)
    ensures Pow2(5) == 32 && Pow2(32) == 0x1_0000_0000
  {
    hide Bit;
    PowersOfTwo();
    assert Pow2(9) == 512 && Pow2(7) == 128;
    BitAbove(0x1_0180, 7, 515, 0);
    BitAbove(0x1_0180, 8, 257, 128);
    BitAbove(0x1_0180, 9, 128, 384);
    BitAbove(0x1_0180, 16, 1, 384);
  }

  /** It is a complete index of these symbols. */
  lemma GnuSampleIndexes()
    ensures GnuIndexes(GnuSample(), TwoNames())
  {
    hide GnuHash, CString, Bit, Pow2;
    LetterGnuHashes();
    SampleBits();
    var g, names := GnuSample(), TwoNames();
    assert HashAt(g, names, 0) == 177672 && HashAt(g, names, 1) == 177671;
    assert g.HasShape();
    assert BloomSet(g, 177672) && BloomSet(g, 177671);
    assert EndBitRight(g, names, 0) && EndBitRight(g, names, 1);
    assert BucketRight(g, names, 0) && BucketRight(g, names, 1);
    forall i, j, k | 0 <= i <= j <= k < |g.chains| ensures Contiguous(g, names, i, j, k) {
    }
  }

  lemma TwoNamed(y: nat)
    ensures Named(TwoNames(), y, [0x62]) <==> y == 2
    ensures Named(TwoNames(), y, [0x63]) <==> y == 1
    ensures !Named(TwoNames(), y, [0x64])
  {
  }

  /** "b" is symbol 2 and "c" symbol 1; "d" is missed. */
  method GnuSampleLookup() returns (b: Lookup, c: Lookup, d: Lookup)
    ensures b == Hit(2) && c == Hit(1) && d == Miss
  {
    hide GnuIndexes, Named, TwoNames, GnuHash, Pow2;
    GnuSampleIndexes();
    GnuShape(GnuSample(), TwoNames());
    b := GnuHashLookup(GnuSample(), TwoNames(), [0x62]);
    c := GnuHashLookup(GnuSample(), TwoNames(), [0x63]);
    d := GnuHashLookup(GnuSample(), TwoNames(), [0x64]);
    TwoNamed(1);
    TwoNamed(2);
    if b.Hit? { TwoNamed(b.y); }
    if c.Hit? { TwoNamed(c.y); }
    if d.Hit? { TwoNamed(d.y); }
    assert b.Hit? && c.Hit? by { ThreeSymbols(); }
  }

  lemma ThreeSymbols()
    ensures |TwoNames()| == 3 && GnuSample().symOffset == 1
  {
  }

  /** The filter itself lets the two hashes pass, and not the third. */
  lemma GnuSampleFilters()
    ensures GnuSample().HasShape()
    ensures GnuSample().BloomPasses(177671) && GnuSample().BloomPasses(177672) && !GnuSample().BloomPasses(177673)
  {
    hide Bit, Pow2, GnuTable.BloomPasses;
    SampleBits();
    assert GnuSample().HasShape();
    BloomExact(GnuSample(), 177671);
    BloomExact(GnuSample(), 177672);
    BloomExact(GnuSample(), 177673);
  }
}

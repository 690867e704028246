/** What the readers of symbols, relocations and notes deliver from given bytes: numbers in the byte order of the
    file, told without the conversions that the program makes. */
module FileBytes {
  import opened Bits
  import opened Memory
  import opened Endianness
  import opened Fields
  import opened SymbolTable
  import opened RelocationTable
  import opened Notes

  /** Bytes as digits of a number, most significant first. */
  function Number(bs: seq<byte>): nat {
    if bs == [] then 0 else Number(bs[..|bs| - 1]) * 0x100 + bs[|bs| - 1]
  }

  function Reversed(bs: seq<byte>): (r: seq<byte>)
    ensures |r| == |bs|
  {
    if bs == [] then [] else Reversed(bs[1..]) + [bs[0]]
  }

  /** The number in a field of a file: most significant byte first in a file of the host's (big-endian) byte
      order, least significant first in one that needs conversion. */
  function InFile(needConversion: bool, bs: seq<byte>): nat {
    Number(if needConversion then Reversed(bs) else bs)
  }

  /** The residue of x modulo 2^n that an n-bit signed field stands for. */
  function AsSigned(x: nat, width: nat): int {
    if width == 4 then (if x < 0x8000_0000 then x else x - 0x1_0000_0000)
    else if x < 0x8000_0000_0000_0000 then x else x - 0x1_0000_0000_0000_0000
  }

  /** Files of encoding 1 (LSB) have their least significant byte first, files of encoding 2 (MSB) last. */
  lemma EncodingsInFile(bs: seq<byte>)
    ensures InFile(NeedsConversion(1), bs) == Number(Reversed(bs)) && InFile(NeedsConversion(2), bs) == Number(bs)
  {
  }

  // ----- fields -----

  lemma NumberOf2(a: byte, b: byte)
    ensures Number([a, b]) == a as nat * 0x100 + b
  {
    assert [a, b][..1] == [a] && [a][..0] == [];
    assert Number([a]) == a;
  }

  lemma NumberOf4(a: byte, b: byte, c: byte, d: byte)
    ensures Number([a, b, c, d]) == ((a as nat * 0x100 + b) * 0x100 + c) * 0x100 + d
  {
    assert [a, b, c, d][..3] == [a, b, c] && [a, b, c][..2] == [a, b];
    NumberOf2(a, b);
    assert Number([a, b, c]) == (a as nat * 0x100 + b) * 0x100 + c;
  }

  lemma {:induction false} NumberJoins(xs: seq<byte>, ys: seq<byte>, p: nat)
    requires p == Power(|ys|)
    ensures Number(xs + ys) == Number(xs) * p + Number(ys)
    decreases |ys|
  {
    if ys == [] {
      assert xs + ys == xs;
    } else {
      var n, q := |ys| - 1, Power(|ys| - 1);
      assert (xs + ys)[..|xs| + n] == xs + ys[..n];
      NumberJoins(xs, ys[..n], q);
      assert Number(xs) * q * 0x100 == Number(xs) * p;
    }
  }

  function Power(n: nat): nat { if n == 0 then 1 else 0x100 * Power(n - 1) }

  lemma WordIsNumber(bs: seq<byte>)
    requires |bs| == 4
    ensures WordOf(bs) == Number(bs)
  {
    NumberOf4(bs[0], bs[1], bs[2], bs[3]);
    assert bs == [bs[0], bs[1], bs[2], bs[3]];
  }

  lemma DwordIsNumber(bs: seq<byte>)
    requires |bs| == 8
    ensures DwordOf(bs) == Number(bs)
  {
    hide WordOf, Number;
    WordIsNumber(bs[..4]);
    WordIsNumber(bs[4..]);
    assert Power(1) == 0x100 && Power(2) == 0x1_0000 && Power(3) == 0x100_0000;
    assert bs == bs[..4] + bs[4..];
    NumberJoins(bs[..4], bs[4..], 0x1_0000_0000);
  }

  lemma ReversedOf4(a: byte, b: byte, c: byte, d: byte)
    ensures Reversed([a, b, c, d]) == [d, c, b, a]
  {
    assert [a, b, c, d][1..] == [b, c, d] && [b, c, d][1..] == [c, d] && [c, d][1..] == [d] && [d][1..] == [];
    assert Reversed([d]) == [d];
    assert Reversed([c, d]) == [d, c];
    assert Reversed([b, c, d]) == [d, c, b];
  }

  lemma {:induction false} ReversedJoins(xs: seq<byte>, ys: seq<byte>)
    ensures Reversed(xs + ys) == Reversed(ys) + Reversed(xs)
    decreases |xs|
  {
    if xs == [] {
      assert xs + ys == ys;
    } else {
      assert (xs + ys)[1..] == xs[1..] + ys;
      ReversedJoins(xs[1..], ys);
    }
  }

  /** A 32-bit field. */
  lemma WordInFile(e: Encoding, bs: seq<byte>)
    requires |bs| == 4
    ensures ReadWordField(e, bs) == InFile(e.needConversion, bs)
  {
    hide WordOf, WordBytes, Swap32, Number, Reversed;
    WordIsNumber(bs);
    Swap32Reverses(WordOf(bs));
    BytesRoundTrip(bs);
    ReversedOf4(bs[0], bs[1], bs[2], bs[3]);
    assert bs == [bs[0], bs[1], bs[2], bs[3]];
    WordIsNumber(Reversed(bs));
  }

  /** A 16-bit field. */
  lemma HalfInFile(e: Encoding, bs: seq<byte>)
    requires |bs| == 2
    ensures ReadHalfField(e, bs) == InFile(e.needConversion, bs)
  {
    hide Swap16;
    var a, b := bs[0], bs[1];
    assert bs == [a, b] && [a, b][1..] == [b] && [b][1..] == [];
    assert Reversed([b]) == [b];
    assert Reversed([a, b]) == [b, a];
    LastDigit(a, b);
    NumberOf2(a, b);
    NumberOf2(b, a);
    Swap16Reverses(HalfOf(bs));
  }

  lemma Reverse8IsReversed(bs: seq<byte>)
    requires |bs| == 8
    ensures Reverse8(bs) == Reversed(bs)
  {
    hide Reversed;
    assert bs == [bs[0], bs[1], bs[2], bs[3]] + [bs[4], bs[5], bs[6], bs[7]];
    ReversedOf4(bs[0], bs[1], bs[2], bs[3]);
    ReversedOf4(bs[4], bs[5], bs[6], bs[7]);
    ReversedJoins([bs[0], bs[1], bs[2], bs[3]], [bs[4], bs[5], bs[6], bs[7]]);
  }

  /** A field as wide as the class makes it. */
  lemma WideInFile(e: Encoding, bs: seq<byte>)
    requires |bs| == e.Width()
    ensures |bs| == if e.elfClass == ELFCLASS32 then 4 else 8
    ensures ReadWideField(e, bs) == InFile(e.needConversion, bs)
  {
    hide DwordOf, DwordBytes, Swap64, Number, Reversed, ReadWordField;
    if e.elfClass == ELFCLASS32 {
      WordInFile(e, bs);
    } else {
      DwordIsNumber(bs);
      Swap64Reverses(DwordOf(bs));
      DwordBytesRoundTrip(bs);
      Reverse8IsReversed(bs);
      DwordIsNumber(Reversed(bs));
    }
  }

  // ----- symbols -----

  /** An Elf32_Sym: name, value and size in four bytes each, info, other, and the section index in two. */
  lemma Symbol32InFile(e: Encoding, bs: seq<byte>)
    requires e.elfClass == ELFCLASS32 && |bs| == 16
    ensures var s, c := ReadSym(e, bs), e.needConversion;
            && s.name == InFile(c, bs[0..4]) && s.value == InFile(c, bs[4..8]) && s.size == InFile(c, bs[8..12])
            && s.info == bs[12] && s.other == bs[13] && s.shndx == InFile(c, bs[14..16])
  {
    hide ReadWordField, ReadWideField, ReadHalfField, InFile;
    WordInFile(e, bs[0..4]);
    WideInFile(e, bs[4..8]);
    WideInFile(e, bs[8..12]);
    HalfInFile(e, bs[14..16]);
  }

  /** An Elf64_Sym: name, info, other, section index, and value and size in eight bytes each. */
  lemma Symbol64InFile(e: Encoding, bs: seq<byte>)
    requires e.elfClass == ELFCLASS64 && |bs| == 24
    ensures var s, c := ReadSym(e, bs), e.needConversion;
            && s.name == InFile(c, bs[0..4]) && s.info == bs[4] && s.other == bs[5] && s.shndx == InFile(c, bs[6..8])
            && s.value == InFile(c, bs[8..16]) && s.size == InFile(c, bs[16..24])
  {
    hide ReadWordField, ReadWideField, ReadHalfField, InFile;
    WordInFile(e, bs[0..4]);
    HalfInFile(e, bs[6..8]);
    WideInFile(e, bs[8..16]);
    WideInFile(e, bs[16..24]);
  }

  /** The null symbol that add_symbol puts into an empty table is 16 or 24 bytes of zeros. */
  lemma NullSymbolInFile(e: Encoding)
    ensures SymBytes(e, NULL_SYMBOL) == seq(if e.elfClass == ELFCLASS32 then 16 else 24, (i: nat) => 0)
  {
    hide WordField, WideField, HalfField;
    ZeroFields(e);
  }

  lemma ZeroFields(e: Encoding)
    ensures WordField(e, 0) == [0, 0, 0, 0] && HalfField(e, 0) == [0, 0]
    ensures WideField(e, 0) == if e.elfClass == ELFCLASS32 then [0, 0, 0, 0] else [0, 0, 0, 0, 0, 0, 0, 0]
  {
    hide Swap64, Swap32, Swap16;
    ZeroSwaps();
    assert WordBytes(0) == [0, 0, 0, 0] && DwordBytes(0) == [0, 0, 0, 0, 0, 0, 0, 0];
  }

  lemma ZeroSwaps()
    ensures Swap64(0) == 0 && Swap32(0) == 0 && Swap16(0) == 0
  {
    hide Swap64, Swap32, Swap16, WordOf, DwordOf, And, Or;
    Swap64Reverses(0);
    Swap32Reverses(0);
    Swap16Reverses(0);
    assert WordBytes(0) == [0, 0, 0, 0] && DwordBytes(0) == [0, 0, 0, 0, 0, 0, 0, 0];
    WordRoundTrip(Swap32(0));
    DwordRoundTrip(Swap64(0));
    WordRoundTrip(0);
    DwordRoundTrip(0);
  }

  // ----- relocation entries -----

  /** An Elf32_Rel or Elf32_Rela: offset, info with the symbol in the upper 24 bits and the type in the lower
      8, and in Rela a signed addend. */
  lemma Relocation32InFile(f: Format, bs: seq<byte>)
    requires f.enc.elfClass == ELFCLASS32 && |bs| == if f.rela then 12 else 8
    ensures var e, c := ReadEntry(f, bs), f.enc.needConversion;
            && e.offset == InFile(c, bs[0..4]) && e.info == InFile(c, bs[4..8])
            && RSym(ELFCLASS32, e.info) == InFile(c, bs[4..8]) / 0x100
            && RType(ELFCLASS32, e.info) == InFile(c, bs[4..8]) % 0x100
            && e.addend == if f.rela then AsSigned(InFile(c, bs[8..12]), 4) else 0
  {
    hide ReadWideField, InFile;
    WideInFile(f.enc, bs[0..4]);
    WideInFile(f.enc, bs[4..8]);
    if f.rela {
      assert bs[8..] == bs[8..12];
      WideInFile(f.enc, bs[8..12]);
    }
  }

  /** An Elf64_Rel or Elf64_Rela: the same in eight bytes each, with 32 bits for symbol and type. */
  lemma Relocation64InFile(f: Format, bs: seq<byte>)
    requires f.enc.elfClass == ELFCLASS64 && |bs| == if f.rela then 24 else 16
    ensures var e, c := ReadEntry(f, bs), f.enc.needConversion;
            && e.offset == InFile(c, bs[0..8]) && e.info == InFile(c, bs[8..16])
            && RSym(ELFCLASS64, e.info) == InFile(c, bs[8..16]) / 0x1_0000_0000
            && RType(ELFCLASS64, e.info) == InFile(c, bs[8..16]) % 0x1_0000_0000
            && e.addend == if f.rela then AsSigned(InFile(c, bs[16..24]), 8) else 0
  {
    hide ReadWideField, InFile;
    WideInFile(f.enc, bs[0..8]);
    WideInFile(f.enc, bs[8..16]);
    if f.rela {
      assert bs[16..] == bs[16..24];
      WideInFile(f.enc, bs[16..24]);
    }
  }

  // ----- notes -----

  /** A word of a note record. */
  lemma NoteWordInFile(conv: bool, s: seq<byte>, at: nat)
    requires at + 4 <= |s|
    ensures WordAt(conv, s, at) == InFile(conv, s[at..at + 4])
  {
    hide InFile;
    WordInFile(Encoding(conv, ELFCLASS32), s[at..at + 4]);
  }

  /** What get_note delivers: the size of the name with its NUL, the size of the descriptor and the type in
      four bytes each, the name, and the descriptor at the next multiple of four. */
  lemma NoteInFile(conv: bool, s: seq<byte>, at: nat)
    requires at + 12 <= |s| <= MAX_SIZE
    ensures var namesz, descsz := InFile(conv, s[at..at + 4]), InFile(conv, s[at + 4..at + 8]);
            && (NoteAt(conv, s, at) == Reading.Refused <==> namesz == 0 || namesz + descsz > |s| - at)
            && (NoteAt(conv, s, at).Found? ==>
                  var n, d := NoteAt(conv, s, at).note, at + 12 + (namesz + 3) / 4 * 4;
                  && n.kind == InFile(conv, s[at + 8..at + 12])
                  && at + 12 + namesz - 1 <= |s| && n.name == s[at + 12..at + 12 + namesz - 1]
                  && (descsz == 0 ==> n.desc == [])
                  && (descsz > 0 ==> d + descsz <= |s| && n.desc == s[d..d + descsz]))
  {
    hide InFile, WordAt;
    NoteWordInFile(conv, s, at);
    NoteWordInFile(conv, s, at + 4);
    NoteWordInFile(conv, s, at + 8);
    var namesz := WordAt(conv, s, at);
    if namesz as int + 3 < 0x1_0000_0000 { AlignedExact(namesz); }
  }

  /** What process_section reads of a record: it is recognised when both sizes are below that of the section
      and its length, all in 32 bits, does not lead behind it. */
  lemma ScanInFile(conv: bool, s: seq<byte>, at: nat)
    requires at + 12 <= |s|
    ensures var namesz, descsz := InFile(conv, s[at..at + 4]), InFile(conv, s[at + 4..at + 8]);
            && AdvanceAt(conv, s, at) == (12 + (namesz + 3) % 0x1_0000_0000 / 4 * 4
                                          + (descsz + 3) % 0x1_0000_0000 / 4 * 4) % 0x1_0000_0000
            && (RecordAt(conv, s, at) <==>
                  namesz < |s| && descsz < |s| && at + AdvanceAt(conv, s, at) as int <= |s|)
  {
    hide InFile, WordAt;
    NoteWordInFile(conv, s, at);
    NoteWordInFile(conv, s, at + 4);
  }

  /** What add_note appends: the length of the name with its NUL, the size of the descriptor and the type in
      four bytes each, the name, the descriptor at the next multiple of four, and zeros up to the next. */
  lemma RecordInFile(conv: bool, kind: word, name: seq<byte>, desc: seq<byte>, descSize: word)
    requires |name| + 1 < 0x1_0000_0000
    ensures var r, d := RecordBytes(conv, kind, name, desc, descSize), 12 + (|name| + 4) / 4 * 4;
            && |r| == d + (|desc| + 3) / 4 * 4
            && InFile(conv, r[0..4]) == |name| + 1 && InFile(conv, r[4..8]) == descSize as nat
            && InFile(conv, r[8..12]) == kind as nat
            && r[12..12 + |name|] == name && r[d..d + |desc|] == desc
            && (forall i :: 12 + |name| <= i < d || d + |desc| <= i < |r| ==> r[i] == 0)
  {
    hide InFile, WordBytes, WordOf, Convert;
    var r, n := RecordBytes(conv, kind, name, desc, descSize), |name| + 1;
    WordStored(conv, n, r[0..4]);
    WordStored(conv, descSize, r[4..8]);
    WordStored(conv, kind, r[8..12]);
  }

  lemma WordStored(conv: bool, w: word, bs: seq<byte>)
    requires bs == WordBytes(Convert(conv, w))
    ensures |bs| == 4 && InFile(conv, bs) == w as nat
  {
    hide InFile, WordBytes, WordOf, Convert;
    WordRoundTrip(Convert(conv, w));
    ConvertTwice(conv, w);
    WordInFile(Encoding(conv, ELFCLASS32), bs);
  }
}

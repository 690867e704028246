/** endianess_convertor: fields of the file in the byte order of the host or in the other one. */
module Endianness {
  import opened Bits
  import opened Memory

  function Swap32(value: word): word {
    OrWord(OrWord(OrWord(
      W(AndWord(value, 0x000000FF) as int * 0x100_0000),
      W(AndWord(value, 0x0000FF00) as int * 0x100)),
      AndWord(value, 0x00FF0000) / 0x100),
      AndWord(value, 0xFF000000) / 0x100_0000)
  }

  function Swap16(value: half): half {
    var r := OrWord(AndWord(value, 0x00FF) as int * 0x100 % 0x1_0000, AndWord(value, 0xFF00) / 0x100);
    r % 0x1_0000
  }

  const ELFDATA2LSB: byte := 1
  const ELFDATA2MSB: byte := 2

  /** setup, on a host whose byte order is big-endian. */
  function NeedsConversion(fileEncoding: byte): bool { fileEncoding != ELFDATA2MSB }

  function W64(x: int): dword { x % 0x1_0000_0000_0000_0000 }

  function Swap64(value: dword): dword {
    W64(Or(Or(Or(Or(Or(Or(Or(
      W64(And(value, 0x0000_0000_0000_00FF) * 0x100_0000_0000_0000),
      W64(And(value, 0x0000_0000_0000_FF00) * 0x100_0000_0000)),
      W64(And(value, 0x0000_0000_00FF_0000) * 0x100_0000)),
      W64(And(value, 0x0000_0000_FF00_0000) * 0x100)),
      And(value, 0x0000_00FF_0000_0000) / 0x100),
      And(value, 0x0000_FF00_0000_0000) / 0x100_0000),
      And(value, 0x00FF_0000_0000_0000) / 0x100_0000_0000),
      And(value, 0xFF00_0000_0000_0000) / 0x100_0000_0000_0000))
  }

  function Convert64(needConversion: bool, value: dword): dword { if needConversion then Swap64(value) else value }
  function Convert(needConversion: bool, value: word): word { if needConversion then Swap32(value) else value }
  function ConvertHalf(needConversion: bool, value: half): half { if needConversion then Swap16(value) else value }

  /** The four bytes of a word, picked out by masks. */
  lemma PickBytes(b0: byte, b1: byte, b2: byte, b3: byte)
    ensures var x: word := ((b0 as nat * 0x100 + b1) * 0x100 + b2) * 0x100 + b3;
            && And(x, 0x000000FF) == b3 && And(x, 0x0000FF00) == b2 as nat * 0x100
            && And(x, 0x00FF0000) == b1 as nat * 0x1_0000 && And(x, 0xFF000000) == b0 as nat * 0x100_0000
  {
    hide And;
    PowersOfTwo();
    var h1 := b0 as nat * 0x100 + b1;
    var h2 := h1 * 0x100 + b2;
    AndAt(8, 0x100, h2, b3, 0, 0xFF);
    AndZero(h2);
    AndMask(8, 0x100, b3);
    AndAt(8, 0x100, h2, b3, 0xFF, 0);
    AndZero(b3);
    AndAt(8, 0x100, h1, b2, 0, 0xFF);
    AndZero(h1);
    AndMask(8, 0x100, b2);
    AndAt(8, 0x100, h2, b3, 0xFF00, 0);
    AndAt(8, 0x100, h1, b2, 0xFF, 0);
    AndZero(b2);
    AndAt(8, 0x100, b0, b1, 0, 0xFF);
    AndZero(b0);
    AndMask(8, 0x100, b1);
    AndAt(8, 0x100, h2, b3, 0xFF0000, 0);
    AndAt(8, 0x100, h1, b2, 0xFF00, 0);
    AndAt(8, 0x100, b0, b1, 0xFF, 0);
    AndZero(b1);
    AndMask(8, 0x100, b0);
  }

  lemma JoinBytes(b0: byte, b1: byte, b2: byte, b3: byte)
    ensures Or(Or(Or(b0 as nat * 0x100_0000, b1 as nat * 0x1_0000), b2 as nat * 0x100), b3)
            == ((b0 as nat * 0x100 + b1) * 0x100 + b2) * 0x100 + b3
  {
    hide Or;
    PowersOfTwo();
    var h0, h1 := b0 as nat, b0 as nat * 0x100 + b1;
    OrAt(24, 0x100_0000, h0, 0, 0, b1 as nat * 0x1_0000);
    AndZero(h0);
    AndZero(b1 as nat * 0x1_0000);
    OrAt(16, 0x1_0000, h1, 0, 0, b2 as nat * 0x100);
    AndZero(h1);
    AndZero(b2 as nat * 0x100);
    OrAt(8, 0x100, h1 * 0x100 + b2, 0, 0, b3);
    AndZero(h1 * 0x100 + b2);
    AndZero(b3);
  }

  function Reverse4(bs: seq<byte>): seq<byte>
    requires |bs| == 4
  {
    [bs[3], bs[2], bs[1], bs[0]]
  }

  /** The 32-bit conversion reverses the bytes of the word. */
  lemma Swap32Reverses(value: word)
    ensures WordBytes(Swap32(value)) == Reverse4(WordBytes(value))
    ensures Swap32(value) == WordOf(Reverse4(WordBytes(value)))
  {
    hide And, Or;
    var bs := WordBytes(value);
    WordRoundTrip(value);
    PickBytes(bs[0], bs[1], bs[2], bs[3]);
    JoinBytes(bs[3], bs[2], bs[1], bs[0]);
    assert Swap32(value) == WordOf(Reverse4(bs));
    BytesRoundTrip(Reverse4(bs));
  }

  lemma PickTwo(h: byte, l: byte)
    ensures And(h as nat * 0x100 + l, 0xFF) == l && And(h as nat * 0x100 + l, 0xFF00) == h as nat * 0x100
    ensures Or(l as nat * 0x100, h) == l as nat * 0x100 + h
  {
    hide And, Or;
    PickBytes(0, 0, h, l);
    PowersOfTwo();
    OrAt(8, 0x100, l, 0, 0, h);
    AndZero(l);
    AndZero(h);
  }

  lemma Swap16Joins(h: byte, l: byte)
    ensures Swap16(h as nat * 0x100 + l) == l as nat * 0x100 + h
  {
    hide And, Or;
    PickTwo(h, l);
  }

  lemma Swap16Reverses(value: half)
    ensures Swap16(value) == value % 0x100 * 0x100 + value / 0x100
  {
    hide Swap16;
    Swap16Joins(value / 0x100, value % 0x100);
  }

  /** Converting twice gives the value back, in either case. */
  lemma ConvertTwice(needConversion: bool, value: word)
    ensures Convert(needConversion, Convert(needConversion, value)) == value
  {
    hide Swap32, WordOf, WordBytes;
    if needConversion {
      var bs := WordBytes(value);
      Swap32Reverses(value);
      Swap32Reverses(Swap32(value));
      assert Reverse4(Reverse4(bs)) == bs;
      WordRoundTrip(value);
    }
  }

  lemma ConvertHalfTwice(needConversion: bool, value: half)
    ensures ConvertHalf(needConversion, ConvertHalf(needConversion, value)) == value
  {
    hide Swap16;
    if needConversion {
      Swap16Reverses(value);
      Swap16Reverses(Swap16(value));
    }
  }

  // ----- 64 bits -----

  /** A mask on one half of a 64-bit value. */
  lemma AndHalf(hi: word, lo: word, mask: word)
    ensures And(hi as nat * 0x1_0000_0000 + lo, mask) == And(lo, mask)
    ensures And(hi as nat * 0x1_0000_0000 + lo, mask as nat * 0x1_0000_0000) == And(hi, mask) * 0x1_0000_0000
  {
    hide And;
    PowersOfTwo();
    AndAt(32, 0x1_0000_0000, hi, lo, 0, mask);
    AndZero(hi);
    AndAt(32, 0x1_0000_0000, hi, lo, mask, 0);
    AndZero(lo);
  }

  /** The eight bytes of a 64-bit value, picked out by masks and moved. */
  lemma PickEight(hi: seq<byte>, lo: seq<byte>)
    requires |hi| == |lo| == 4
    ensures var x := WordOf(hi) as nat * 0x1_0000_0000 + WordOf(lo);
            && And(x, 0xFF) == lo[3] && And(x, 0xFF00) == lo[2] as nat * 0x100
            && And(x, 0xFF_0000) == lo[1] as nat * 0x1_0000 && And(x, 0xFF00_0000) == lo[0] as nat * 0x100_0000
            && And(x, 0xFF_0000_0000) == hi[3] as nat * 0x1_0000_0000
            && And(x, 0xFF00_0000_0000) == hi[2] as nat * 0x100_0000_0000
            && And(x, 0xFF_0000_0000_0000) == hi[1] as nat * 0x1_0000_0000_0000
            && And(x, 0xFF00_0000_0000_0000) == hi[0] as nat * 0x100_0000_0000_0000
  {
    hide And;
    PickBytes(hi[0], hi[1], hi[2], hi[3]);
    PickBytes(lo[0], lo[1], lo[2], lo[3]);
    var h, l := WordOf(hi), WordOf(lo);
    AndHalf(h, l, 0xFF);
    AndHalf(h, l, 0xFF00);
    AndHalf(h, l, 0xFF_0000);
    AndHalf(h, l, 0xFF00_0000);
  }

  lemma OrHigh(x: nat, y: nat)
    ensures Or(x * 0x1_0000_0000, y * 0x1_0000_0000) == Or(x, y) * 0x1_0000_0000
  {
    hide Or;
    PowersOfTwo();
    OrAt(32, 0x1_0000_0000, x, 0, y, 0);
    assert Or(0, 0) == 0 by { AndZero(0); }
  }

  lemma OrLowHalf(h: nat, x: word, y: word)
    ensures Or(x, y) < 0x1_0000_0000
    ensures Or(h * 0x1_0000_0000 + x, y) == h * 0x1_0000_0000 + Or(x, y)
  {
    hide Or;
    PowersOfTwo();
    OrAt(32, 0x1_0000_0000, h, x, 0, y);
    AndZero(h);
  }

  lemma JoinEight(b: seq<byte>)
    requires |b| == 8
    ensures Or(Or(Or(Or(Or(Or(Or(
              b[0] as nat * 0x100_0000_0000_0000, b[1] as nat * 0x1_0000_0000_0000),
              b[2] as nat * 0x100_0000_0000), b[3] as nat * 0x1_0000_0000),
              b[4] as nat * 0x100_0000), b[5] as nat * 0x1_0000),
              b[6] as nat * 0x100), b[7])
            == DwordOf(b)
  {
    hide Or;
    JoinBytes(b[0], b[1], b[2], b[3]);
    JoinBytes(b[4], b[5], b[6], b[7]);
    var h0, h1 := b[0] as nat * 0x100_0000, b[1] as nat * 0x1_0000;
    OrHigh(h0, h1);
    OrHigh(Or(h0, h1), b[2] as nat * 0x100);
    OrHigh(Or(Or(h0, h1), b[2] as nat * 0x100), b[3]);
    var h := Or(Or(Or(h0, h1), b[2] as nat * 0x100), b[3]);
    var l0, l1 := b[4] as nat * 0x100_0000, b[5] as nat * 0x1_0000;
    OrLowHalf(h, 0, l0);
    AndZero(l0);
    OrLowHalf(h, l0, l1);
    OrLowHalf(h, Or(l0, l1), b[6] as nat * 0x100);
    OrLowHalf(h, Or(Or(l0, l1), b[6] as nat * 0x100), b[7]);
  }

  function Reverse8(bs: seq<byte>): seq<byte>
    requires |bs| == 8
  {
    [bs[7], bs[6], bs[5], bs[4], bs[3], bs[2], bs[1], bs[0]]
  }

  lemma MoveByteUp(b: byte)
    ensures W64(b as nat * 0x100_0000_0000_0000) == b as nat * 0x100_0000_0000_0000
    ensures W64(b as nat * 0x100 * 0x100_0000_0000) == b as nat * 0x1_0000_0000_0000
    ensures W64(b as nat * 0x1_0000 * 0x100_0000) == b as nat * 0x100_0000_0000
    ensures W64(b as nat * 0x100_0000 * 0x100) == b as nat * 0x1_0000_0000
  {
  }

  lemma Swap64Joins(hi: seq<byte>, lo: seq<byte>)
    requires |hi| == |lo| == 4
    ensures Swap64(WordOf(hi) as nat * 0x1_0000_0000 + WordOf(lo)) == DwordOf(Reverse8(hi + lo))
  {
    hide And, Or, WordOf, W64;
    PickEight(hi, lo);
    MoveByteUp(lo[3]);
    MoveByteUp(lo[2]);
    MoveByteUp(lo[1]);
    MoveByteUp(lo[0]);
    JoinEight(Reverse8(hi + lo));
    SmallW64(DwordOf(Reverse8(hi + lo)));
  }

  lemma SmallW64(x: dword)
    ensures W64(x) == x
  {
  }

  /** The 64-bit conversion reverses the bytes of the value. */
  lemma Swap64Reverses(value: dword)
    ensures Swap64(value) == DwordOf(Reverse8(DwordBytes(value)))
    ensures DwordBytes(Swap64(value)) == Reverse8(DwordBytes(value))
  {
    hide And, Or, Swap64, WordOf, WordBytes;
    var bs := DwordBytes(value);
    DwordRoundTrip(value);
    Swap64Joins(bs[..4], bs[4..]);
    assert bs == bs[..4] + bs[4..];
    assert Reverse8(bs[..4] + bs[4..]) == Reverse8(bs);
    DwordBytesRoundTrip(Reverse8(bs));
  }

  lemma Convert64Twice(needConversion: bool, value: dword)
    ensures Convert64(needConversion, Convert64(needConversion, value)) == value
  {
    hide Swap64, DwordOf, DwordBytes;
    if needConversion {
      var bs := DwordBytes(value);
      Swap64Reverses(value);
      Swap64Reverses(Swap64(value));
      assert Reverse8(Reverse8(bs)) == bs;
      DwordRoundTrip(value);
    }
  }
}

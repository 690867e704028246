/** The fields of file structures: 16, 32 and 64 bits wide, in the byte order of the file. */
module Fields {
  import opened Bits
  import opened Memory
  import opened Endianness

  datatype Class = ELFCLASS32 | ELFCLASS64

  /** The byte order and the class of a file. */
  datatype Encoding = Encoding(needConversion: bool, elfClass: Class) {
    /** The width of addresses, sizes and addends. */
    function Width(): nat { if elfClass == ELFCLASS32 then 4 else 8 }

    function Limit(): nat { if elfClass == ELFCLASS32 then 0x1_0000_0000 else 0x1_0000_0000_0000_0000 }
  }

  function WordField(e: Encoding, x: word): (r: seq<byte>)
    ensures |r| == 4
  {
    WordBytes(Convert(e.needConversion, x))
  }

  function ReadWordField(e: Encoding, bs: seq<byte>): word
    requires |bs| == 4
  {
    Convert(e.needConversion, WordOf(bs))
  }

  function HalfField(e: Encoding, x: half): (r: seq<byte>)
    ensures |r| == 2
  {
    HalfBytes(ConvertHalf(e.needConversion, x))
  }

  function ReadHalfField(e: Encoding, bs: seq<byte>): half
    requires |bs| == 2
  {
    ConvertHalf(e.needConversion, HalfOf(bs))
  }

  /** A field as wide as the class makes it; 32-bit files keep the low half. */
  function WideField(e: Encoding, x: dword): (r: seq<byte>)
    ensures |r| == e.Width()
  {
    if e.elfClass == ELFCLASS32 then WordField(e, W(x)) else DwordBytes(Convert64(e.needConversion, x))
  }

  function ReadWideField(e: Encoding, bs: seq<byte>): (r: dword)
    requires |bs| == e.Width()
    ensures r < e.Limit()
  {
    if e.elfClass == ELFCLASS32 then ReadWordField(e, bs) else Convert64(e.needConversion, DwordOf(bs))
  }

  lemma WordFieldReads(e: Encoding, x: word)
    ensures ReadWordField(e, WordField(e, x)) == x
  {
    hide WordOf, WordBytes, Convert;
    WordRoundTrip(Convert(e.needConversion, x));
    ConvertTwice(e.needConversion, x);
  }

  lemma HalfFieldReads(e: Encoding, x: half)
    ensures ReadHalfField(e, HalfField(e, x)) == x
  {
    hide HalfOf, HalfBytes, ConvertHalf;
    HalfRoundTrip(ConvertHalf(e.needConversion, x));
    ConvertHalfTwice(e.needConversion, x);
  }

  lemma WideFieldReads(e: Encoding, x: dword)
    ensures ReadWideField(e, WideField(e, x)) == x % e.Limit()
  {
    hide DwordOf, DwordBytes, Convert64, WordField, ReadWordField;
    if e.elfClass == ELFCLASS32 {
      WordFieldReads(e, W(x));
    } else {
      DwordRoundTrip(Convert64(e.needConversion, x));
      Convert64Twice(e.needConversion, x);
    }
  }

  // ----- signed fields -----

  /** The two's complement of an addend, and the addend that it stands for. */
  function Unsigned(e: Encoding, addend: int): dword { addend % e.Limit() }

  function SignedOf(e: Encoding, x: dword): (r: int)
    requires x < e.Limit()
    ensures InRange(e, r)
  {
    if x < e.Limit() / 2 then x else x - e.Limit()
  }

  predicate InRange(e: Encoding, addend: int) { -(e.Limit() / 2) <= addend < e.Limit() / 2 }

  lemma SignedReads(e: Encoding, addend: int)
    requires InRange(e, addend)
    ensures SignedOf(e, Unsigned(e, addend)) == addend && Unsigned(e, addend) < e.Limit()
  {
  }
}

/** The 32-bit big-endian address space the loader patches. Addresses wrap around at the top. */
module Memory {
  import opened Bits

  /** A memory image: one byte for each 32-bit address. */
  type Mem = m: seq<byte> | |m| == 0x1_0000_0000
    ghost witness seq(0x1_0000_0000, (i: nat) => 0)

  /** Address arithmetic with wrap-around. */
  function Sub(x: word, y: word): word { if x >= y then x - y else x - y + 0x1_0000_0000 }

  function Plus(x: word, k: word): word { if x + k < 0x1_0000_0000 then x + k else x + k - 0x1_0000_0000 }

  /** The bytes bs written at a, a + 1, ... */
  function PutBytes(m: Mem, a: word, bs: seq<byte>): (r: Mem)
    requires |bs| <= 0x1_0000_0000
    ensures forall i: word :: r[i] == if Sub(i, a) < |bs| then bs[Sub(i, a)] else m[i]
  {
    seq(0x1_0000_0000, (i: nat) requires i < 0x1_0000_0000 => if Sub(i, a) < |bs| then bs[Sub(i, a)] else m[i])
  }

  function GetBytes(m: Mem, a: word, n: nat): (r: seq<byte>)
    requires n <= 0x1_0000_0000
    ensures |r| == n
    ensures forall k: nat :: k < n ==> r[k] == m[Plus(a, k)]
  {
    seq(n, (k: nat) requires k < n => m[Plus(a, k)])
  }

  /** Two address ranges with no byte in common. */
  predicate Disjoint(a: word, n: nat, b: word, k: nat) {
    n == 0 || k == 0 || (Sub(b, a) >= n && Sub(a, b) >= k)
  }

  // ----- words and halfwords, most significant byte first -----

  function WordBytes(w: word): (r: seq<byte>)
    ensures |r| == 4
  {
    [w / 0x100_0000, w / 0x1_0000 % 0x100, w / 0x100 % 0x100, w % 0x100]
  }

  function HalfBytes(h: half): (r: seq<byte>)
    ensures |r| == 2
  {
    [h / 0x100, h % 0x100]
  }

  function DwordBytes(x: dword): (r: seq<byte>)
    ensures |r| == 8
  {
    WordBytes(x / 0x1_0000_0000) + WordBytes(x % 0x1_0000_0000)
  }

  function WordOf(bs: seq<byte>): word
    requires |bs| == 4
  {
    (bs[0] as nat) * 0x100_0000 + (bs[1] as nat) * 0x1_0000 + (bs[2] as nat) * 0x100 + bs[3]
  }

  function HalfOf(bs: seq<byte>): half
    requires |bs| == 2
  {
    (bs[0] as nat) * 0x100 + bs[1]
  }

  function DwordOf(bs: seq<byte>): dword
    requires |bs| == 8
  {
    WordOf(bs[..4]) as nat * 0x1_0000_0000 + WordOf(bs[4..])
  }

  function GetWord(m: Mem, a: word): word { WordOf(GetBytes(m, a, 4)) }

  function PutWord(m: Mem, a: word, w: word): Mem { PutBytes(m, a, WordBytes(w)) }

  function PutHalf(m: Mem, a: word, h: half): Mem { PutBytes(m, a, HalfBytes(h)) }

  lemma WordRoundTrip(w: word)
    ensures WordOf(WordBytes(w)) == w
  {
    var a, b, c := w / 0x100, w / 0x1_0000, w / 0x100_0000;
    assert a / 0x100 == b && b / 0x100 == c;
  }

  lemma DwordRoundTrip(x: dword)
    ensures DwordOf(DwordBytes(x)) == x
  {
    hide WordOf, WordBytes;
    WordRoundTrip(x / 0x1_0000_0000);
    WordRoundTrip(x % 0x1_0000_0000);
    assert DwordBytes(x)[..4] == WordBytes(x / 0x1_0000_0000);
    assert DwordBytes(x)[4..] == WordBytes(x % 0x1_0000_0000);
  }

  lemma HalfRoundTrip(h: half)
    ensures HalfOf(HalfBytes(h)) == h
  {
  }

  lemma LastDigit(x: nat, b: byte)
    ensures (x * 0x100 + b) / 0x100 == x && (x * 0x100 + b) % 0x100 == b
  {
  }

  lemma BytesRoundTrip(bs: seq<byte>)
    requires |bs| == 4
    ensures WordBytes(WordOf(bs)) == bs
  {
    var w := WordOf(bs);
    var x, y := bs[0] as nat * 0x100 + bs[1], (bs[0] as nat * 0x100 + bs[1]) * 0x100 + bs[2];
    assert w == y * 0x100 + bs[3];
    LastDigit(y, bs[3]);
    LastDigit(x, bs[2]);
    LastDigit(bs[0], bs[1]);
    assert w / 0x1_0000 == w / 0x100 / 0x100 && w / 0x100_0000 == w / 0x100 / 0x100 / 0x100;
  }

  lemma DwordBytesRoundTrip(bs: seq<byte>)
    requires |bs| == 8
    ensures DwordBytes(DwordOf(bs)) == bs
  {
    hide WordOf, WordBytes;
    BytesRoundTrip(bs[..4]);
    BytesRoundTrip(bs[4..]);
    assert bs == bs[..4] + bs[4..];
  }

  lemma HalvesOfWord(bs: seq<byte>, h: half)
    requires |bs| == 4 && bs[2..] == HalfBytes(h)
    ensures WordOf(bs) % 0x1_0000 == h
    ensures WordOf(bs) / 0x1_0000 == (bs[0] as nat) * 0x100 + bs[1]
  {
    assert bs[2] == bs[2..][0] && bs[3] == bs[2..][1];
  }

  // ----- reading what was written -----

  lemma GetPut(m: Mem, a: word, bs: seq<byte>)
    requires |bs| <= 0x1_0000_0000
    ensures GetBytes(PutBytes(m, a, bs), a, |bs|) == bs
  {
    forall k: nat | k < |bs| ensures GetBytes(PutBytes(m, a, bs), a, |bs|)[k] == bs[k] {
      assert Sub(Plus(a, k), a) == k;
    }
  }

  lemma GetPutOther(m: Mem, a: word, bs: seq<byte>, b: word, n: nat)
    requires |bs| <= 0x1_0000_0000 && n <= 0x1_0000_0000
    requires Disjoint(a, |bs|, b, n)
    ensures GetBytes(PutBytes(m, a, bs), b, n) == GetBytes(m, b, n)
  {
    forall k: nat | k < n ensures !(Sub(Plus(b, k), a) < |bs|) {
    }
  }

  lemma GetPutWord(m: Mem, a: word, w: word)
    ensures GetWord(PutWord(m, a, w), a) == w
  {
    GetPut(m, a, WordBytes(w));
    WordRoundTrip(w);
  }

  /** A read of part of a range. */
  lemma GetPart(m: Mem, a: word, n: nat, k: word, j: nat)
    requires k + j <= n <= 0x1_0000_0000
    ensures GetBytes(m, Plus(a, k), j) == GetBytes(m, a, n)[k..k + j]
  {
    forall i: nat | i < j
      ensures GetBytes(m, Plus(a, k), j)[i] == GetBytes(m, a, n)[k..k + j][i]
    {
      assert Plus(Plus(a, k), i) == Plus(a, k + i);
    }
  }

  /** Two adjoining writes are one. */
  lemma PutAppend(m: Mem, a: word, xs: seq<byte>, ys: seq<byte>)
    requires |xs| + |ys| < 0x1_0000_0000
    ensures PutBytes(PutBytes(m, a, xs), Plus(a, |xs|), ys) == PutBytes(m, a, xs + ys)
  {
    var l, r := PutBytes(PutBytes(m, a, xs), Plus(a, |xs|), ys), PutBytes(m, a, xs + ys);
    forall i: word ensures l[i] == r[i] {
    }
  }

  // ----- stores into the memory array -----

  method StoreBytes(mem: array<byte>, a: word, bs: seq<byte>)
    requires mem.Length == 0x1_0000_0000 && |bs| <= 0x1_0000_0000
    modifies mem
    ensures mem[..] == PutBytes(old(mem[..]), a, bs)
  {
    for k := 0 to |bs|
      invariant forall i: word :: mem[i] == if Sub(i, a) < k then bs[Sub(i, a)] else old(mem[i])
    {
      mem[Plus(a, k)] := bs[k];
    }
  }

  method StoreWord(mem: array<byte>, a: word, w: word)
    requires mem.Length == 0x1_0000_0000
    modifies mem
    ensures mem[..] == PutWord(old(mem[..]), a, w)
  {
    StoreBytes(mem, a, WordBytes(w));
  }

  method StoreHalf(mem: array<byte>, a: word, h: half)
    requires mem.Length == 0x1_0000_0000
    modifies mem
    ensures mem[..] == PutHalf(old(mem[..]), a, h)
  {
    StoreBytes(mem, a, HalfBytes(h));
  }

  method LoadWord(mem: array<byte>, a: word) returns (w: word)
    requires mem.Length == 0x1_0000_0000
    ensures w == GetWord(mem[..], a)
  {
    w := WordOf([mem[a], mem[Plus(a, 1)], mem[Plus(a, 2)], mem[Plus(a, 3)]]);
    assert GetBytes(mem[..], a, 4) == [mem[a], mem[Plus(a, 1)], mem[Plus(a, 2)], mem[Plus(a, 3)]];
  }
}

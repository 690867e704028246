/** The two symbol hash functions of ELF. */
module Hashing {
  import opened Bits

  type Name = seq<byte>

  /** A C string: the bytes in front of the first NUL. */
  function CString(s: seq<byte>): (r: Name)
    ensures 0 !in r && |r| <= |s| && r == s[..|r|]
    ensures |r| < |s| ==> s[|r|] == 0
  {
    if s == [] || s[0] == 0 then [] else [s[0]] + CString(s[1..])
  }

  // ----- the System V hash -----

  /** One character: the top four bits of the shifted sum are folded back in. */
  function SysvStep(h: word, c: byte): word {
    var t := W(h as int * 16 + c);
    XorWord(t % 0x1000_0000, t / 0x1000_0000 * 16)
  }

  function SysvHash(s: Name): word {
    if s == [] then 0 else SysvStep(SysvHash(s[..|s| - 1]), s[|s| - 1])
  }

  lemma {:induction false} Complement(x: nat, k: nat)
    requires x < Pow2(k)
    ensures And(x, Pow2(k) - 1 - x) == 0
  {
    if k > 0 {
      AndUnfold(x, Pow2(k) - 1 - x);
      Complement(x / 2, k - 1);
      assert (Pow2(k) - 1 - x) / 2 == Pow2(k - 1) - 1 - x / 2;
    }
  }

  /** Folding the top nibble in, and clearing it. */
  lemma FoldNibble(q: nat, r: nat)
    requires q < 16 && r < 0x1000_0000
    ensures And(q * 0x1000_0000 + r, 0xf0000000) == q * 0x1000_0000
    ensures Xor(q * 0x1000_0000 + r, q * 16) == q * 0x1000_0000 + Xor(r, q * 16)
    ensures Xor(r, q * 16) < 0x1000_0000
    ensures And(q * 0x1000_0000 + Xor(r, q * 16), 0xFFFFFFFF - q * 0x1000_0000) == Xor(r, q * 16)
  {
    hide And, Or, Xor;
    PowersOfTwo();
    assert Pow2(4) == 16;
    AndAt(28, 0x1000_0000, q, r, 15, 0);
    AndMask(4, 16, q);
    AndZero(r);
    XorAt(28, 0x1000_0000, q, r, 0, q * 16);
    AndZero(q);
    var x := Xor(r, q * 16);
    AndAt(28, 0x1000_0000, q, x, 15 - q, 0xFFF_FFFF);
    Complement(q, 4);
    AndMask(28, 0x1000_0000, x);
  }

  /** The statements of the loop amount to one SysvStep. */
  lemma StepFolds(h: word, c: byte)
    ensures var t := W(h as int * 16 + c);
            var g := AndWord(t, 0xf0000000);
            AndWord(if g != 0 then XorWord(t, g / 0x100_0000) else t, 0xFFFFFFFF - g) == SysvStep(h, c)
    ensures SysvStep(h, c) < 0x1000_0000
  {
    hide And, Xor;
    var t := W(h as int * 16 + c);
    FoldNibble(t / 0x1000_0000, t % 0x1000_0000);
    AndZero(t);
  }

  /** The hash stays below 2 to the 28 after every character, and the loop computes the arithmetic form. */
  method ElfHash(name: seq<byte>) returns (h: word)
    ensures h == SysvHash(CString(name))
    ensures h < 0x1000_0000
  {
    hide And, Xor, SysvStep;
    h := 0;
    var i := 0;
    ghost var s := CString(name);
    while i < |name| && name[i] != 0
      invariant i <= |s| && h == SysvHash(s[..i]) && h < 0x1000_0000
      decreases |name| - i
    {
      assert s[..i + 1][..i] == s[..i];
      StepFolds(h, name[i]);
      h := W(h as int * 16 + name[i]);
      var g := AndWord(h, 0xf0000000);
      if g != 0 { h := XorWord(h, g / 0x100_0000); }
      h := AndWord(h, 0xFFFFFFFF - g);
      i := i + 1;
    }
    assert s[..i] == s;
  }

  // ----- the GNU hash -----

  function Pow33(n: nat): nat { if n == 0 then 1 else 33 * Pow33(n - 1) }

  /** The bytes of s as the digits of a number in base 33, most significant first. */
  function Base33(s: Name): nat {
    if s == [] then 0 else s[0] as nat * Pow33(|s| - 1) + Base33(s[1..])
  }

  /** 5381 * 33^n plus the base-33 sum of the bytes, modulo 2^32. */
  function GnuHash(s: Name): word { W(5381 * Pow33(|s|) + Base33(s)) }

  lemma {:induction false} Base33Append(s: Name, c: byte)
    ensures Base33(s + [c]) == 33 * Base33(s) + c
  {
    if s == [] {
      assert s + [c] == [c] && Base33([c][1..]) == 0;
    } else {
      assert (s + [c])[1..] == s[1..] + [c];
      Base33Append(s[1..], c);
      var d, p := s[0] as nat, Pow33(|s| - 1);
      assert d * (33 * p) == 33 * (d * p);
    }
  }

  lemma GnuStep(s: Name, c: byte)
    ensures GnuHash(s + [c]) == W(GnuHash(s) * 33 + c)
  {
    Base33Append(s, c);
    var x := 5381 * Pow33(|s|) + Base33(s);
    assert 5381 * Pow33(|s + [c]|) + Base33(s + [c]) == 33 * x + c;
    Wrap33(x, c);
  }

  lemma Wrap33(x: nat, c: byte)
    ensures W(33 * x + c) == W(W(x) * 33 + c)
  {
    var q := x / 0x1_0000_0000;
    assert 33 * x + c == (33 * q) * 0x1_0000_0000 + (33 * W(x) + c);
    WrapMultiple(33 * q, 33 * W(x) + c);
  }

  method ElfGnuHash(name: seq<byte>) returns (h: word)
    ensures h == GnuHash(CString(name))
  {
    h := 0x1505;
    var i := 0;
    ghost var s := CString(name);
    while i < |name| && name[i] != 0
      invariant i <= |s| && h == GnuHash(s[..i])
      decreases |name| - i
    {
      GnuStep(s[..i], name[i]);
      assert s[..i + 1] == s[..i] + [name[i]];
      WrapThrice(h, name[i]);
      h := W(W(h as int * 32) + h + name[i]);
      i := i + 1;
    }
    assert s[..i] == s;
  }

  lemma WrapThrice(h: word, c: byte)
    ensures W(W(h as int * 32) + h + c) == W(h as int * 33 + c)
  {
    var q := h as int * 32 / 0x1_0000_0000;
    assert h as int * 33 + c == q * 0x1_0000_0000 + (W(h as int * 32) + h + c);
    WrapMultiple(q, W(h as int * 32) + h + c);
  }
}

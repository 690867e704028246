/** Bitwise operators on unbounded naturals, and the arithmetic they amount to on the masks this
    program uses. The operators are defined bit by bit, so a mask in the source can be written down
    as it stands; the lemmas turn it into division and remainder. */
module Bits {

  type word = x: nat | x < 0x1_0000_0000
  type byte = x: nat | x < 0x100
  type half = x: nat | x < 0x1_0000
  type dword = x: nat | x < 0x1_0000_0000_0000_0000

  /** A signed 32-bit value. */
  type sword = x: int | -0x8000_0000 <= x < 0x8000_0000

  function Pow2(k: nat): (p: nat)
    ensures p > 0
  {
    if k == 0 then 1 else 2 * Pow2(k - 1)
  }

  /** Bit k of x, counted from the least significant. */
  predicate Bit(x: nat, k: nat) {
    if k == 0 then x % 2 == 1 else Bit(x / 2, k - 1)
  }

  function And(x: nat, y: nat): nat {
    if x == 0 || y == 0 then 0
    else 2 * And(x / 2, y / 2) + if x % 2 == 1 && y % 2 == 1 then 1 else 0
  }

  function Or(x: nat, y: nat): nat {
    if x == 0 then y else if y == 0 then x
    else 2 * Or(x / 2, y / 2) + if x % 2 == 1 || y % 2 == 1 then 1 else 0
  }

  function Xor(x: nat, y: nat): nat {
    if x == 0 then y else if y == 0 then x
    else 2 * Xor(x / 2, y / 2) + if x % 2 != y % 2 then 1 else 0
  }

  /** Truncation to 32 bits. */
  function W(x: int): word { x % 0x1_0000_0000 }

  lemma WrapMultiple(q: int, x: int)
    ensures W(q * 0x1_0000_0000 + x) == W(x)
  {
  }

  lemma WrapSum(x: int, y: int)
    ensures W(W(x) + y) == W(x + y)
  {
    var q := x / 0x1_0000_0000;
    assert x == q * 0x1_0000_0000 + W(x);
    WrapMultiple(q, W(x) + y);
  }

  lemma WrapDifference(x: int, y: int)
    ensures W(W(x) - W(y)) == W(x - y)
  {
    hide W;
    WrapSum(x, -(W(y) as int));
    WrapNegated(x, y);
  }

  lemma WrapNegated(x: int, y: int)
    ensures W(x - W(y)) == W(x - y)
  {
    var q := y / 0x1_0000_0000;
    assert y == q * 0x1_0000_0000 + W(y);
    assert x - W(y) == q * 0x1_0000_0000 + (x - y);
    WrapMultiple(q, x - y);
  }

  /** A 32-bit word read as a two's complement number. */
  function Signed(x: word): sword { if x < 0x8000_0000 then x else x - 0x1_0000_0000 }

  lemma BitOfDouble(a: nat, b: nat, k: nat)
    requires b < 2
    ensures Bit(2 * a + b, k) <==> if k == 0 then b == 1 else Bit(a, k - 1)
  {
    assert (2 * a + b) / 2 == a;
  }

  lemma {:induction false} BitwiseAnd(x: nat, y: nat, k: nat)
    ensures Bit(And(x, y), k) <==> Bit(x, k) && Bit(y, k)
    decreases k
  {
    hide And;
    AndUnfold(x, y);
    BitOfDouble(And(x / 2, y / 2), if x % 2 == 1 && y % 2 == 1 then 1 else 0, k);
    if k > 0 { BitwiseAnd(x / 2, y / 2, k - 1); }
  }

  lemma {:induction false} BitwiseOr(x: nat, y: nat, k: nat)
    ensures Bit(Or(x, y), k) <==> Bit(x, k) || Bit(y, k)
    decreases k
  {
    hide Or;
    OrUnfold(x, y);
    BitOfDouble(Or(x / 2, y / 2), if x % 2 == 1 || y % 2 == 1 then 1 else 0, k);
    if k > 0 { BitwiseOr(x / 2, y / 2, k - 1); }
  }

  lemma {:induction false} ZeroBit(k: nat)
    ensures !Bit(0, k)
  {
    if k > 0 { ZeroBit(k - 1); }
  }

  lemma {:induction false} Extensional(x: nat, y: nat)
    requires forall k: nat :: Bit(x, k) <==> Bit(y, k)
    ensures x == y
    decreases x + y
  {
    assert Bit(x, 0) == Bit(y, 0);
    if x + y > 0 {
      forall k: nat ensures Bit(x / 2, k) <==> Bit(y / 2, k) {
        assert Bit(x, k + 1) <==> Bit(y, k + 1);
      }
      Extensional(x / 2, y / 2);
    }
  }

  // ----- splitting at a power of two -----

  /** x shifted left by k bits. */
  function Shl(x: nat, k: nat): nat {
    if k == 0 then x else 2 * Shl(x, k - 1)
  }

  lemma {:induction false} ShlIsProduct(x: nat, k: nat)
    ensures Shl(x, k) == x * Pow2(k)
  {
    if k > 0 {
      ShlIsProduct(x, k - 1);
      var p := Pow2(k - 1);
      assert x * (2 * p) == 2 * (x * p);
    }
  }

  lemma AndUnfold(x: nat, y: nat)
    ensures And(x, y) == 2 * And(x / 2, y / 2) + if x % 2 == 1 && y % 2 == 1 then 1 else 0
  {
  }

  lemma OrUnfold(x: nat, y: nat)
    ensures Or(x, y) == 2 * Or(x / 2, y / 2) + if x % 2 == 1 || y % 2 == 1 then 1 else 0
  {
  }

  lemma XorUnfold(x: nat, y: nat)
    ensures Xor(x, y) == 2 * Xor(x / 2, y / 2) + if x % 2 != y % 2 then 1 else 0
  {
  }

  lemma ZeroZero()
    ensures And(0, 0) == 0 && Or(0, 0) == 0 && Xor(0, 0) == 0
  {
  }

  lemma {:induction false} AndSplit(a: nat, b: nat, c: nat, d: nat, k: nat)
    requires b < Pow2(k) && d < Pow2(k)
    ensures And(Shl(a, k) + b, Shl(c, k) + d) == Shl(And(a, c), k) + And(b, d)
    ensures And(b, d) < Pow2(k)
  {
    hide And;
    if k == 0 {
      assert b == 0 && d == 0;
      ZeroZero();
    } else {
      AndSplit(a, b / 2, c, d / 2, k - 1);
      AndUnfold(Shl(a, k) + b, Shl(c, k) + d);
      AndUnfold(b, d);
    }
  }

  lemma {:induction false} OrSplit(a: nat, b: nat, c: nat, d: nat, k: nat)
    requires b < Pow2(k) && d < Pow2(k)
    ensures Or(Shl(a, k) + b, Shl(c, k) + d) == Shl(Or(a, c), k) + Or(b, d)
    ensures Or(b, d) < Pow2(k)
  {
    hide Or;
    if k == 0 {
      assert b == 0 && d == 0;
      ZeroZero();
    } else {
      OrSplit(a, b / 2, c, d / 2, k - 1);
      OrUnfold(Shl(a, k) + b, Shl(c, k) + d);
      OrUnfold(b, d);
    }
  }

  lemma {:induction false} XorSplit(a: nat, b: nat, c: nat, d: nat, k: nat)
    requires b < Pow2(k) && d < Pow2(k)
    ensures Xor(Shl(a, k) + b, Shl(c, k) + d) == Shl(Xor(a, c), k) + Xor(b, d)
    ensures Xor(b, d) < Pow2(k)
  {
    hide Xor;
    if k == 0 {
      assert b == 0 && d == 0;
      ZeroZero();
    } else {
      XorSplit(a, b / 2, c, d / 2, k - 1);
      XorUnfold(Shl(a, k) + b, Shl(c, k) + d);
      XorUnfold(b, d);
    }
  }

  /** A mask of k ones keeps the remainder. */
  lemma {:induction false} AndOnes(x: nat, k: nat)
    requires x < Pow2(k)
    ensures And(x, Pow2(k) - 1) == x
  {
    hide And;
    if k == 0 {
      AndZero(x);
    } else {
      AndUnfold(x, Pow2(k) - 1);
      AndOnes(x / 2, k - 1);
      assert (Pow2(k) - 1) / 2 == Pow2(k - 1) - 1;
    }
  }

  lemma {:induction false} AndZero(x: nat)
    ensures And(x, 0) == 0 && And(0, x) == 0
    ensures Or(x, 0) == x && Or(0, x) == x
    ensures Xor(x, 0) == x && Xor(0, x) == x
  {
  }

  /** And works on the part above bit k and the part below it separately; p is 2 to the k. */
  lemma AndAt(k: nat, p: nat, a: nat, b: nat, c: nat, d: nat)
    requires p == Pow2(k) && b < p && d < p
    ensures And(a * p + b, c * p + d) == And(a, c) * p + And(b, d)
    ensures And(b, d) < p
  {
    hide And, Shl, Pow2;
    ShlIsProduct(a, k);
    ShlIsProduct(c, k);
    ShlIsProduct(And(a, c), k);
    AndSplit(a, b, c, d, k);
  }

  /** Or works on the part above bit k and the part below it separately; p is 2 to the k. */
  lemma OrAt(k: nat, p: nat, a: nat, b: nat, c: nat, d: nat)
    requires p == Pow2(k) && b < p && d < p
    ensures Or(a * p + b, c * p + d) == Or(a, c) * p + Or(b, d)
    ensures Or(b, d) < p
  {
    hide Or, Shl, Pow2;
    ShlIsProduct(a, k);
    ShlIsProduct(c, k);
    ShlIsProduct(Or(a, c), k);
    OrSplit(a, b, c, d, k);
  }

  /** Xor works on the part above bit k and the part below it separately; p is 2 to the k. */
  lemma XorAt(k: nat, p: nat, a: nat, b: nat, c: nat, d: nat)
    requires p == Pow2(k) && b < p && d < p
    ensures Xor(a * p + b, c * p + d) == Xor(a, c) * p + Xor(b, d)
    ensures Xor(b, d) < p
  {
    hide Xor, Shl, Pow2;
    ShlIsProduct(a, k);
    ShlIsProduct(c, k);
    ShlIsProduct(Xor(a, c), k);
    XorSplit(a, b, c, d, k);
  }

  /** A mask of ones keeps everything below it. */
  lemma AndMask(k: nat, p: nat, x: nat)
    requires p == Pow2(k) && x < p
    ensures And(x, p - 1) == x
  {
    AndOnes(x, k);
  }

  lemma PowersOfTwo()
    ensures Pow2(8) == 0x100 && Pow2(12) == 0x1000 && Pow2(14) == 0x4000 && Pow2(15) == 0x8000
    ensures Pow2(16) == 0x1_0000 && Pow2(17) == 0x2_0000 && Pow2(24) == 0x100_0000
    ensures Pow2(25) == 0x200_0000 && Pow2(26) == 0x400_0000 && Pow2(28) == 0x1000_0000
    ensures Pow2(32) == 0x1_0000_0000
  {
    assert Pow2(4) == 0x10;
    assert Pow2(6) == 0x40;
    assert Pow2(10) == 0x400;
    assert Pow2(18) == 0x4_0000;
    assert Pow2(20) == 0x10_0000;
    assert Pow2(22) == 0x40_0000;
    assert Pow2(30) == 0x4000_0000;
  }

  // ----- 32-bit operators -----

  lemma {:induction false} Bounded(x: nat, y: nat, k: nat)
    requires x < Pow2(k) && y < Pow2(k)
    ensures And(x, y) < Pow2(k) && Or(x, y) < Pow2(k) && Xor(x, y) < Pow2(k)
  {
    if k > 0 {
      Bounded(x / 2, y / 2, k - 1);
      AndUnfold(x, y);
      OrUnfold(x, y);
      XorUnfold(x, y);
    }
  }

  function AndWord(x: word, y: word): (r: word)
    ensures r == And(x, y)
  {
    PowersOfTwo();
    Bounded(x, y, 32);
    And(x, y)
  }

  function OrWord(x: word, y: word): (r: word)
    ensures r == Or(x, y)
  {
    PowersOfTwo();
    Bounded(x, y, 32);
    Or(x, y)
  }

  function XorWord(x: word, y: word): (r: word)
    ensures r == Xor(x, y)
  {
    PowersOfTwo();
    Bounded(x, y, 32);
    Xor(x, y)
  }

  // ----- the masks of this program -----

  lemma AndLow2(x: nat)
    ensures And(x, 3) == x % 4
  {
    hide And;
    AndAt(2, 4, x / 4, x % 4, 0, 3);
    AndZero(x / 4);
    AndMask(2, 4, x % 4);
  }

  lemma AndLow16(x: nat)
    ensures And(x, 0xFFFF) == x % 0x1_0000
  {
    hide And, Or;
    PowersOfTwo();
    AndAt(16, 0x1_0000, x / 0x1_0000, x % 0x1_0000, 0, 0xFFFF);
    AndZero(x / 0x1_0000);
    AndMask(16, 0x1_0000, x % 0x1_0000);
  }

  /** 0xFFFFFF00 rounds a word down to a multiple of 0x100. */
  lemma AndRound8(x: word)
    ensures And(x, 0xFFFFFF00) == x / 0x100 * 0x100
  {
    hide And, Or;
    PowersOfTwo();
    AndAt(8, 0x100, x / 0x100, x % 0x100, 0xFF_FFFF, 0);
    AndMask(24, 0x100_0000, x / 0x100);
    AndZero(x % 0x100);
  }

  /** 0xFFFF0000 rounds a word down to a multiple of 0x10000. */
  lemma AndRound16(x: word)
    ensures And(x, 0xFFFF0000) == x / 0x1_0000 * 0x1_0000
  {
    hide And, Or;
    PowersOfTwo();
    AndAt(16, 0x1_0000, x / 0x1_0000, x % 0x1_0000, 0xFFFF, 0);
    AndMask(16, 0x1_0000, x / 0x1_0000);
    AndZero(x % 0x1_0000);
  }

  lemma AndTop7(x: word)
    ensures And(x, 0xFE000000) == x / 0x200_0000 * 0x200_0000
  {
    hide And, Or;
    PowersOfTwo();
    AndAt(25, 0x200_0000, x / 0x200_0000, x % 0x200_0000, 0x7F, 0);
    AndMask(7, 0x80, x / 0x200_0000);
    AndZero(x % 0x200_0000);
  }

  lemma AndTop17(x: word)
    ensures And(x, 0xFFFF8000) == x / 0x8000 * 0x8000
  {
    hide And, Or;
    PowersOfTwo();
    AndAt(15, 0x8000, x / 0x8000, x % 0x8000, 0x1_FFFF, 0);
    AndMask(17, 0x2_0000, x / 0x8000);
    AndZero(x % 0x8000);
  }

  /** 0x03fffffc and 0x0000fffc keep a word-aligned displacement field. */
  lemma AndDisplacement24(x: word)
    ensures And(x, 0x03fffffc) == x % 0x400_0000 / 4 * 4
  {
    hide And, Or;
    PowersOfTwo();
    AndAt(26, 0x400_0000, x / 0x400_0000, x % 0x400_0000, 0, 0x3fffffc);
    AndZero(x / 0x400_0000);
    var y := x % 0x400_0000;
    AndAt(2, 4, y / 4, y % 4, 0xff_ffff, 0);
    AndMask(24, 0x100_0000, y / 4);
    AndZero(y % 4);
  }

  lemma AndDisplacement14(x: word)
    ensures And(x, 0x0000fffc) == x % 0x1_0000 / 4 * 4
  {
    hide And, Or;
    PowersOfTwo();
    AndAt(16, 0x1_0000, x / 0x1_0000, x % 0x1_0000, 0, 0xfffc);
    AndZero(x / 0x1_0000);
    var y := x % 0x1_0000;
    AndAt(2, 4, y / 4, y % 4, 0x3fff, 0);
    AndMask(14, 0x4000, y / 4);
    AndZero(y % 4);
  }

  /** 0xfc000003 keeps the primary opcode and the AA and LK bits of a branch. */
  lemma AndBranchFrame24(x: word)
    ensures And(x, 0xfc000003) == x / 0x400_0000 * 0x400_0000 + x % 4
  {
    hide And, Or;
    PowersOfTwo();
    var h, l := x / 0x400_0000, x % 0x400_0000;
    AndAt(26, 0x400_0000, h, l, 0x3f, 3);
    AndMask(6, 0x40, h);
    AndLow2(l);
    LowBits(h, l);
  }

  lemma LowBits(h: nat, l: nat)
    ensures (h * 0x400_0000 + l) % 4 == l % 4
    ensures (h * 0x1_0000 + l) % 4 == l % 4
  {
    Multiple4(h * 0x100_0000, l);
    Multiple4(h * 0x4000, l);
  }

  lemma Multiple4(q: int, l: int)
    ensures (4 * q + l) % 4 == l % 4
  {
  }

  /** 0xFFBF0003 keeps the opcode, BI, AA, LK and all of BO but bit 22 (here t). */
  lemma AndBranchFrame14(q: nat, t: nat, r: nat, l: nat)
    requires q < 0x200 && t < 2 && r < 0x40 && l < 0x1_0000
    ensures And((q * 0x80 + (t * 0x40 + r)) * 0x1_0000 + l, 0xFFBF0003) == (q * 0x80 + r) * 0x1_0000 + l % 4
  {
    hide And, Or;
    PowersOfTwo();
    AndAt(16, 0x1_0000, q * 0x80 + (t * 0x40 + r), l, 0xFFBF, 3);
    AndLow2(l);
    HighBits(q, t, r);
  }

  lemma HighBits(q: nat, t: nat, r: nat)
    requires q < 0x200 && t < 2 && r < 0x40
    ensures And(q * 0x80 + (t * 0x40 + r), 0xFFBF) == q * 0x80 + r
  {
    hide And, Or;
    PowersOfTwo();
    AndAt(7, 0x80, q, t * 0x40 + r, 0x1FF, 0x3F);
    AndMask(9, 0x200, q);
    AndAt(6, 0x40, t, r, 0, 0x3F);
    AndZero(t);
    AndMask(6, 0x40, r);
  }

  /** A halfword is or-ed into a cleared low half. */
  lemma OrHalf(h: nat, l: half)
    ensures Or(h * 0x1_0000, l) == h * 0x1_0000 + l
  {
    hide And, Or;
    PowersOfTwo();
    OrAt(16, 0x1_0000, h, 0, 0, l);
    AndZero(h);
    AndZero(l);
  }

  /** A word-aligned displacement field is or-ed into a cleared field. */
  lemma OrFields(k: nat, p: nat, hi: nat, mid: nat, lo: nat)
    requires p == Pow2(k) && mid * 4 < p && lo < 4 <= p
    ensures Or(hi * p + lo, mid * 4) == hi * p + mid * 4 + lo
  {
    hide And, Or;
    OrAt(k, p, hi, lo, 0, mid * 4);
    AndZero(hi);
    assert Pow2(2) == 4;
    OrAt(2, 4, 0, lo, mid, 0);
    AndZero(lo);
    AndZero(mid);
  }

  lemma OrBranch24(hi: nat, mid: nat, lo: nat)
    requires mid < 0x100_0000 && lo < 4
    ensures Or(hi * 0x400_0000 + lo, mid * 4) == hi * 0x400_0000 + mid * 4 + lo
  {
    PowersOfTwo();
    OrFields(26, 0x400_0000, hi, mid, lo);
  }

  lemma OrBranch14(hi: nat, mid: nat, lo: nat)
    requires mid < 0x4000 && lo < 4
    ensures Or(hi * 0x1_0000 + lo, mid * 4) == hi * 0x1_0000 + mid * 4 + lo
  {
    PowersOfTwo();
    OrFields(16, 0x1_0000, hi, mid, lo);
  }
}

// Four text bytes at a time: the word tests of rizzos/lib/stb_sprintf.h:333 and 408-414.
module StbWords {
  import opened Bits

  /** STBSP__NUMSZ, the size of the buffer for one number. */
  const NUMSZ: nat := 512

  const WORD_LIMIT: nat := 0x1_0000_0000

  /** Four bytes in memory read as one little-endian word. */
  function Word(b0: Byte, b1: Byte, b2: Byte, b3: Byte): nat {
    b0 + Shl(b1 + Shl(b2 + Shl(b3, 8), 8), 8)
  }

  function Xor(a: nat, b: nat): nat
    decreases a + b
  {
    if a == 0 && b == 0 then 0
    else HalfIsLess(a, b); 2 * Xor(a / 2, b / 2) + (if a % 2 != b % 2 then 1 else 0)
  }

  lemma HalfIsLess(a: nat, b: nat)
    requires a + b > 0
    ensures a / 2 + b / 2 < a + b
  {
  }

  lemma XorStep(a: nat, b: nat)
    ensures Xor(a, b) == 2 * Xor(a / 2, b / 2) + (if a % 2 != b % 2 then 1 else 0)
  {
    if a == 0 && b == 0 {
      assert Xor(a / 2, b / 2) == 0;
    }
  }

  /** `^` works on the two parts of a split word independently. */
  lemma {:induction false} XorJoin(a: nat, b: nat, x: nat, y: nat, k: nat)
    requires a < Pow2(k) && b < Pow2(k)
    ensures Xor(a + Shl(x, k), b + Shl(y, k)) == Xor(a, b) + Shl(Xor(x, y), k)
  {
    hide Xor;
    if k == 0 {
      XorSame(0);
    } else {
      XorJoin(a / 2, b / 2, x, y, k - 1);
      Halve(a, Shl(x, k - 1));
      Halve(b, Shl(y, k - 1));
      XorStep(a + Shl(x, k), b + Shl(y, k));
      XorStep(a, b);
    }
  }

  lemma {:induction false} XorSame(a: nat)
    ensures Xor(a, a) == 0
  {
    if a > 0 {
      XorSame(a / 2);
    }
  }

  lemma {:induction false} XorZero(a: nat, b: nat)
    ensures Xor(a, b) == 0 <==> a == b
    decreases a + b
  {
    if a + b > 0 {
      XorZero(a / 2, b / 2);
    }
  }

  lemma {:induction false} XorFits(a: nat, b: nat, k: nat)
    requires a < Pow2(k) && b < Pow2(k)
    ensures Xor(a, b) < Pow2(k)
  {
    if k > 0 {
      XorFits(a / 2, b / 2, k - 1);
      XorStep(a, b);
    }
  }

  lemma SmallPowers()
    ensures Pow2(0) == 1 && Pow2(7) == 128 && Pow2(8) == 256
  {
    assert Pow2(4) == 16;
  }

  lemma Shl7(x: nat)
    ensures Shl(x, 7) == 128 * x
  {
    hide Shl;
    ShlFour(x, 3);
    ShlThree(x);
  }

  lemma ShlThree(x: nat)
    ensures Shl(x, 3) == 8 * x
  {
    assert Shl(x, 1) == 2 * x;
  }

  lemma Shl8(x: nat)
    ensures Shl(x, 8) == 256 * x
  {
    hide Shl;
    ShlFour(x, 4);
    ShlFour(x, 0);
    ShlNone(x);
  }

  lemma ShlNone(x: nat)
    ensures Shl(x, 0) == x
  {
  }

  /** A byte is its low seven bits and its top bit. */
  lemma SplitByte(b: Byte)
    ensures b == b % 128 + Shl(b / 128, 7) && b % 128 < Pow2(7) && b / 128 <= 1
  {
    SmallPowers();
    Shl7(b / 128);
  }

  /** Exclusive or with '%' keeps the top bit and is zero only for '%'. */
  lemma XorByte(b: Byte, p: Byte)
    requires p < 128
    ensures Xor(b, p) < 256 && (Xor(b, p) == 0 <==> b == p) && (Xor(b, p) >= 128 <==> b >= 128)
  {
    SmallPowers();
    XorFits(b, p, 8);
    XorZero(b, p);
    SplitByte(b);
    SplitByte(p);
    XorJoin(b % 128, p % 128, b / 128, p / 128, 7);
    XorFits(b % 128, p % 128, 7);
    TopXor(b / 128);
    Shl7(Xor(b / 128, 0));
  }

  lemma TopXor(t: nat)
    requires t <= 1
    ensures Xor(t, 0) == t
  {
    XorStep(t, 0);
    XorSame(0);
  }

  lemma XorWord(a0: Byte, a1: Byte, a2: Byte, a3: Byte, p: Byte)
    requires p < 128
    ensures Xor(a0, p) < 256 && Xor(a1, p) < 256 && Xor(a2, p) < 256 && Xor(a3, p) < 256
    ensures Xor(Word(a0, a1, a2, a3), Word(p, p, p, p)) == Word(Xor(a0, p), Xor(a1, p), Xor(a2, p), Xor(a3, p))
  {
    hide Xor, Shl, Pow2;
    SmallPowers();
    XorByte(a0, p);
    XorByte(a1, p);
    XorByte(a2, p);
    XorByte(a3, p);
    XorJoin(a2, p, a3, p, 8);
    XorJoin(a1, p, a2 + Shl(a3, 8), p + Shl(p, 8), 8);
    XorJoin(a0, p, a1 + Shl(a2 + Shl(a3, 8), 8), p + Shl(p + Shl(p, 8), 8), 8);
  }

  lemma {:induction false} AndBelow(a: nat, b: nat)
    ensures And(a, b) <= a && And(a, b) <= b
  {
    if a > 0 {
      AndBelow(a / 2, b / 2);
    }
  }

  lemma AndWord(a0: Byte, a1: Byte, a2: Byte, a3: Byte, c0: Byte, c1: Byte, c2: Byte, c3: Byte)
    ensures And(a0, c0) < 256 && And(a1, c1) < 256 && And(a2, c2) < 256 && And(a3, c3) < 256
    ensures And(Word(a0, a1, a2, a3), Word(c0, c1, c2, c3)) == Word(And(a0, c0), And(a1, c1), And(a2, c2), And(a3, c3))
  {
    hide And, Shl, Pow2;
    SmallPowers();
    AndBelow(a0, c0);
    AndBelow(a1, c1);
    AndBelow(a2, c2);
    AndBelow(a3, c3);
    AndJoin(a2, c2, a3, c3, 8);
    AndJoin(a1, c1, a2 + Shl(a3, 8), c2 + Shl(c3, 8), 8);
    AndJoin(a0, c0, a1 + Shl(a2 + Shl(a3, 8), 8), c1 + Shl(c2 + Shl(c3, 8), 8), 8);
  }

  lemma WordValue(b0: Byte, b1: Byte, b2: Byte, b3: Byte)
    ensures Word(b0, b1, b2, b3) == b0 + 256 * b1 + 65536 * b2 + 16777216 * b3
  {
    hide Shl;
    Shl8(b3);
    Shl8(b2 + Shl(b3, 8));
    Shl8(b1 + Shl(b2 + Shl(b3, 8), 8));
  }

  lemma AndTop(n: Byte)
    ensures And(n, 128) == if n >= 128 then 128 else 0
  {
    hide And, Shl;
    SmallPowers();
    SplitByte(n);
    Shl7(1);
    Shl7(n / 128);
    AndZero(n % 128);
    OneBits(n / 128, 1);
    AndJoin(n % 128, 0, n / 128, 1, 7);
  }

  lemma OneBits(s: nat, t: nat)
    requires s <= 1 && t <= 1
    ensures And(s, t) == if s == 1 && t == 1 then 1 else 0
  {
    AndStep(s, t);
    AndZero(0);
  }

  lemma AndTops(c: Byte, n: Byte)
    ensures And(c, n) < 256
    ensures And(c, n) >= 128 <==> c >= 128 && n >= 128
  {
    hide And, Shl, Pow2;
    var lc, tc, ln, tn := c % 128, c / 128, n % 128, n / 128;
    SplitByte(c);
    SplitByte(n);
    AndJoin(lc, ln, tc, tn, 7);
    AndBelow(lc, ln);
    AndBelow(c, n);
    Shl7(And(tc, tn));
    OneBits(tc, tn);
  }

  /** The top bits that two bytes share. */
  lemma TopBits(c: Byte, n: Byte)
    ensures And(c, And(n, 128)) == (if c >= 128 && n >= 128 then 128 else 0)
    ensures And(And(c, n), 128) == And(c, And(n, 128))
  {
    hide And;
    AndTop(n);
    AndTop(c);
    AndZero(c);
    AndTops(c, n);
    AndTop(And(c, n));
  }

  // ----- the test

  /** x - 0x01010101 in 32 bits. */
  function LessOnes(x: nat): nat {
    (x - 0x01010101) % WORD_LIMIT
  }

  /** `~x` in 32 bits. */
  function Complement(x: nat): nat
    requires x < WORD_LIMIT
  {
    0xffff_ffff - x
  }

  /** The byte that is left at a place where less comes in from the right. */
  function Borrow(b: Byte, less: bool): (c: Byte) {
    (b - 1 - (if less then 1 else 0)) % 256
  }

  lemma LessOnesBytes(b0: Byte, b1: Byte, b2: Byte, b3: Byte)
    ensures var l1, l2 := b0 < 1, if b0 < 1 then b1 < 2 else b1 < 1;
      var l3 := if l2 then b2 < 2 else b2 < 1;
      LessOnes(Word(b0, b1, b2, b3)) == Word(Borrow(b0, false), Borrow(b1, l1), Borrow(b2, l2), Borrow(b3, l3))
  {
    hide Word, Borrow, LessOnes;
    var l1 := b0 < 1;
    var l2 := if l1 then b1 < 2 else b1 < 1;
    var l3 := if l2 then b2 < 2 else b2 < 1;
    var l4 := if l3 then b3 < 2 else b3 < 1;
    WordValue(b0, b1, b2, b3);
    WordValue(Borrow(b0, false), Borrow(b1, l1), Borrow(b2, l2), Borrow(b3, l3));
    BorrowValue(b0, false);
    BorrowValue(b1, l1);
    BorrowValue(b2, l2);
    BorrowValue(b3, l3);
    var x := Word(b0, b1, b2, b3) - 0x01010101;
    var y := Word(Borrow(b0, false), Borrow(b1, l1), Borrow(b2, l2), Borrow(b3, l3));
    assert x == y - (if l4 then WORD_LIMIT else 0);
    LessOnesValue(Word(b0, b1, b2, b3), y, l4);
  }

  lemma LessOnesValue(w: nat, y: nat, wraps: bool)
    requires y < WORD_LIMIT && w - 0x01010101 == y - (if wraps then WORD_LIMIT else 0)
    ensures LessOnes(w) == y
  {
  }

  lemma BorrowValue(b: Byte, less: bool)
    ensures Borrow(b, less) == b - 1 - (if less then 1 else 0) + (if b < (if less then 2 else 1) then 256 else 0)
  {
  }

  lemma ComplementBytes(b0: Byte, b1: Byte, b2: Byte, b3: Byte)
    ensures Word(b0, b1, b2, b3) < WORD_LIMIT
    ensures Complement(Word(b0, b1, b2, b3)) == Word(255 - b0, 255 - b1, 255 - b2, 255 - b3)
  {
    hide Word;
    WordValue(b0, b1, b2, b3);
    WordValue(255 - b0, 255 - b1, 255 - b2, 255 - b3);
  }

  lemma TopsWord()
    ensures 0x80808080 == Word(128, 128, 128, 128) && 0x25252525 == Word(0x25, 0x25, 0x25, 0x25)
  {
    WordValue(128, 128, 128, 128);
    WordValue(0x25, 0x25, 0x25, 0x25);
  }

  /** Whether the test bit of one byte comes out. */
  predicate Marked(x: Byte, n: Byte, less: bool) {
    Borrow(x, less) >= 128 && n >= 128
  }

  /** The borrow reaches only past a zero byte, so some mark comes out exactly when a byte is zero. */
  lemma MarksMeanZero(x0: Byte, x1: Byte, x2: Byte, x3: Byte, n0: Byte, n1: Byte, n2: Byte, n3: Byte)
    requires (n0 >= 128 <==> x0 < 128) && (n1 >= 128 <==> x1 < 128) && (n2 >= 128 <==> x2 < 128) && (n3 >= 128 <==> x3 < 128)
    ensures var l1, l2 := x0 < 1, if x0 < 1 then x1 < 2 else x1 < 1;
      var l3 := if l2 then x2 < 2 else x2 < 1;
      (Marked(x0, n0, false) || Marked(x1, n1, l1) || Marked(x2, n2, l2) || Marked(x3, n3, l3))
      <==> (x0 == 0 || x1 == 0 || x2 == 0 || x3 == 0)
  {
    hide Borrow;
    var l1 := x0 < 1;
    var l2 := if l1 then x1 < 2 else x1 < 1;
    var l3 := if l2 then x2 < 2 else x2 < 1;
    BorrowValue(x0, false);
    BorrowValue(x1, l1);
    BorrowValue(x2, l2);
    BorrowValue(x3, l3);
  }

  lemma WordZero(b0: Byte, b1: Byte, b2: Byte, b3: Byte)
    ensures Word(b0, b1, b2, b3) == 0 <==> b0 == 0 && b1 == 0 && b2 == 0 && b3 == 0
  {
    hide Word;
    WordValue(b0, b1, b2, b3);
  }

  /** The test on a word whose bytes are x, against a word with the opposite top bits. */
  lemma TestBytes(x0: Byte, x1: Byte, x2: Byte, x3: Byte, n0: Byte, n1: Byte, n2: Byte, n3: Byte)
    requires (n0 >= 128 <==> x0 < 128) && (n1 >= 128 <==> x1 < 128) && (n2 >= 128 <==> x2 < 128) && (n3 >= 128 <==> x3 < 128)
    ensures And(LessOnes(Word(x0, x1, x2, x3)), And(Word(n0, n1, n2, n3), 0x80808080)) != 0
      <==> x0 == 0 || x1 == 0 || x2 == 0 || x3 == 0
    ensures And(And(LessOnes(Word(x0, x1, x2, x3)), Word(n0, n1, n2, n3)), 0x80808080)
      == And(LessOnes(Word(x0, x1, x2, x3)), And(Word(n0, n1, n2, n3), 0x80808080))
  {
    hide And, Word, Borrow, LessOnes;
    var l1 := x0 < 1;
    var l2 := if l1 then x1 < 2 else x1 < 1;
    var l3 := if l2 then x2 < 2 else x2 < 1;
    var c0, c1, c2, c3 := Borrow(x0, false), Borrow(x1, l1), Borrow(x2, l2), Borrow(x3, l3);
    LessOnesBytes(x0, x1, x2, x3);
    MarksMeanZero(x0, x1, x2, x3, n0, n1, n2, n3);
    TopsWord();
    AndWord(n0, n1, n2, n3, 128, 128, 128, 128);
    AndWord(c0, c1, c2, c3, And(n0, 128), And(n1, 128), And(n2, 128), And(n3, 128));
    AndWord(c0, c1, c2, c3, n0, n1, n2, n3);
    AndWord(And(c0, n0), And(c1, n1), And(c2, n2), And(c3, n3), 128, 128, 128, 128);
    TopBits(c0, n0);
    TopBits(c1, n1);
    TopBits(c2, n2);
    TopBits(c3, n3);
    WordZero(And(c0, And(n0, 128)), And(c1, And(n1, 128)), And(c2, And(n2, 128)), And(c3, And(n3, 128)));
  }

  // ----- the two uses of the test

  /** stbsp__strlen_limited: a zero byte in the word (line 333). */
  function ZeroMark(v: nat): nat
    requires v < WORD_LIMIT
  {
    And(And(LessOnes(v), Complement(v)), 0x80808080)
  }

  /** The literal copy: a '%' in the word (line 411), then a zero byte (line 413). */
  function PercentMark(v: nat): nat
    requires v < WORD_LIMIT
  {
    And(LessOnes(Xor(v, 0x25252525)), And(Complement(v), 0x80808080))
  }

  function EndMark(v: nat): nat
    requires v < WORD_LIMIT
  {
    And(LessOnes(v), And(Complement(v), 0x80808080))
  }

  lemma ZeroMarkMeaning(b0: Byte, b1: Byte, b2: Byte, b3: Byte)
    ensures Word(b0, b1, b2, b3) < WORD_LIMIT
    ensures ZeroMark(Word(b0, b1, b2, b3)) != 0 <==> b0 == 0 || b1 == 0 || b2 == 0 || b3 == 0
    ensures EndMark(Word(b0, b1, b2, b3)) != 0 <==> b0 == 0 || b1 == 0 || b2 == 0 || b3 == 0
  {
    hide And, Word, LessOnes, Complement;
    ComplementBytes(b0, b1, b2, b3);
    TestBytes(b0, b1, b2, b3, 255 - b0, 255 - b1, 255 - b2, 255 - b3);
  }

  const PERCENT: Byte := '%' as int

  lemma PercentMarkMeaning(b0: Byte, b1: Byte, b2: Byte, b3: Byte)
    ensures Word(b0, b1, b2, b3) < WORD_LIMIT
    ensures PercentMark(Word(b0, b1, b2, b3)) != 0
      <==> b0 == PERCENT || b1 == PERCENT || b2 == PERCENT || b3 == PERCENT
  {
    hide And, Word, LessOnes, Complement, Xor;
    ComplementBytes(b0, b1, b2, b3);
    TopsWord();
    XorWord(b0, b1, b2, b3, 0x25);
    XorByte(b0, 0x25);
    XorByte(b1, 0x25);
    XorByte(b2, 0x25);
    XorByte(b3, 0x25);
    TestBytes(Xor(b0, 0x25), Xor(b1, 0x25), Xor(b2, 0x25), Xor(b3, 0x25), 255 - b0, 255 - b1, 255 - b2, 255 - b3);
  }
}

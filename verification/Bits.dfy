// Unsigned machine words as natural numbers, and the bit operators of C on them.
//
// A `uint64_t` is a natural number below 2^64.  `&` and `|` are defined digit by
// digit; `<<`, `>>` are multiplication and division by powers of two; wrap-around
// is written out with Wrap.  The lemmas turn masking into arithmetic.
module Bits {

  type Byte = b: nat | b < 0x100

  const U64_LIMIT: nat := 0x1_0000_0000_0000_0000

  /** What a `uint64_t` holds after an operation whose exact result is x. */
  function Wrap(x: int): (w: nat)
    ensures w < U64_LIMIT
  {
    x % U64_LIMIT
  }

  /** Wrap-around may be postponed to the end of a sum. */
  lemma WrapLate(a: int, b: int)
    ensures Wrap(Wrap(a) + b) == Wrap(a + b)
  {
  }

  lemma WrapMinus(a: int, b: int)
    ensures Wrap(a - Wrap(b)) == Wrap(a - b)
  {
  }

  lemma WrapFits(x: nat)
    requires x < U64_LIMIT
    ensures Wrap(x) == x
  {
  }

  function Pow2(k: nat): (p: nat)
    ensures p > 0
  {
    if k == 0 then 1 else 2 * Pow2(k - 1)
  }

  function And(a: nat, b: nat): nat {
    if a == 0 then 0 else 2 * And(a / 2, b / 2) + (if a % 2 == 1 && b % 2 == 1 then 1 else 0)
  }

  function Or(a: nat, b: nat): nat {
    if a == 0 then b else 2 * Or(a / 2, b / 2) + (if a % 2 == 1 || b % 2 == 1 then 1 else 0)
  }

  /** `~m` in a word of n bits. */
  function Not(m: nat, n: nat): nat
    requires m < Pow2(n)
  {
    Pow2(n) - 1 - m
  }

  /** Binary digit k of w. */
  function Digit(w: nat, k: nat): (d: nat)
    ensures d <= 1
  {
    if k == 0 then w % 2 else Digit(w / 2, k - 1)
  }

  /** w with binary digit k replaced. */
  function PutDigit(w: nat, k: nat, one: bool): nat {
    if k == 0 then 2 * (w / 2) + (if one then 1 else 0)
    else 2 * PutDigit(w / 2, k - 1, one) + w % 2
  }

  lemma PutDigitParts(w: nat, k: nat, one: bool)
    ensures PutDigit(w, k, one) / 2 == if k == 0 then w / 2 else PutDigit(w / 2, k - 1, one)
    ensures PutDigit(w, k, one) % 2 == if k > 0 then w % 2 else if one then 1 else 0
  {
  }

  lemma {:induction false} PutDigitMeaning(w: nat, k: nat, one: bool, j: nat)
    ensures Digit(PutDigit(w, k, one), j) == if j == k then (if one then 1 else 0) else Digit(w, j)
  {
    PutDigitParts(w, k, one);
    if k > 0 && j > 0 {
      PutDigitMeaning(w / 2, k - 1, one, j - 1);
    }
  }

  lemma {:induction false} PutDigitTwice(w: nat, k: nat, first: bool, second: bool)
    ensures PutDigit(PutDigit(w, k, first), k, second) == PutDigit(w, k, second)
  {
    PutDigitParts(w, k, first);
    if k > 0 {
      PutDigitTwice(w / 2, k - 1, first, second);
    }
  }

  lemma {:induction false} Pow2Smaller(k: nat, n: nat)
    requires k < n
    ensures 2 * Pow2(k) <= Pow2(n)
  {
    if k > 0 {
      Pow2Smaller(k - 1, n - 1);
    }
  }

  // ----- masks with a single bit

  /** `w & (1 << k)` tests digit k. */
  lemma {:induction false} AndPow2(w: nat, k: nat)
    ensures And(w, Pow2(k)) == if Digit(w, k) == 1 then Pow2(k) else 0
  {
    if w == 0 {
      ZeroDigit(k);
    } else if k == 0 {
      AndZero(w / 2);
    } else {
      AndPow2(w / 2, k - 1);
    }
  }

  lemma {:induction false} ZeroDigit(k: nat)
    ensures Digit(0, k) == 0
  {
    if k > 0 {
      ZeroDigit(k - 1);
    }
  }

  lemma {:induction false} AndZero(w: nat)
    ensures And(w, 0) == 0
  {
    if w > 0 {
      AndZero(w / 2);
    }
  }

  /** A word of ones without its lowest digit. */
  lemma HalfOnes(n: nat)
    requires n > 0
    ensures (Pow2(n) - 1) / 2 == Pow2(n - 1) - 1 && (Pow2(n) - 1) % 2 == 1
  {
    assert Pow2(n) == 2 * Pow2(n - 1);
  }

  lemma HalfFits(w: nat, n: nat)
    requires 0 < w < Pow2(n)
    ensures n > 0 && w / 2 < Pow2(n - 1)
  {
    assert Pow2(0) == 1;
  }

  lemma FromZero(b: nat)
    ensures And(0, b) == 0
  {
  }

  lemma {:induction false} AndOnes(w: nat, n: nat)
    requires w < Pow2(n)
    ensures And(w, Pow2(n) - 1) == w
  {
    hide And, Pow2;
    if w == 0 {
      FromZero(Pow2(n) - 1);
    } else {
      HalfFits(w, n);
      HalfOnes(n);
      AndOnes(w / 2, n - 1);
      AndStep(w, Pow2(n) - 1);
    }
  }

  /** `w & ~(1 << k)` clears digit k. */
  lemma {:induction false} AndNotPow2(w: nat, k: nat, n: nat)
    requires k < n && w < Pow2(n)
    ensures Pow2(k) < Pow2(n)
    ensures And(w, Not(Pow2(k), n)) == PutDigit(w, k, false)
  {
    hide And, Pow2;
    Pow2Smaller(k, n);
    if w == 0 {
      FromZero(Not(Pow2(k), n));
      PutDigitZero(k);
    } else {
      HalfFits(w, n);
      AndStep(w, Not(Pow2(k), n));
      if k == 0 {
        HalfOnes(n);
        NoDigits();
        AndOnes(w / 2, n - 1);
      } else {
        AndNotPow2(w / 2, k - 1, n - 1);
        HalfNot(k, n);
      }
    }
  }

  lemma NoDigits()
    ensures Pow2(0) == 1
  {
  }

  lemma HalfNot(k: nat, n: nat)
    requires 0 < k < n && Pow2(k) < Pow2(n) && Pow2(k - 1) < Pow2(n - 1)
    ensures Not(Pow2(k), n) / 2 == Not(Pow2(k - 1), n - 1) && Not(Pow2(k), n) % 2 == 1
  {
    assert Pow2(k) == 2 * Pow2(k - 1) && Pow2(n) == 2 * Pow2(n - 1);
  }

  lemma {:induction false} PutDigitZero(k: nat)
    ensures PutDigit(0, k, false) == 0
  {
    if k > 0 {
      PutDigitZero(k - 1);
    }
  }

  /** `w | (1 << k)` sets digit k. */
  lemma {:induction false} OrPow2(w: nat, k: nat)
    ensures Or(w, Pow2(k)) == PutDigit(w, k, true)
  {
    if w == 0 {
      PutOne(k);
    } else if k == 0 {
      OrZero(w / 2);
    } else {
      OrPow2(w / 2, k - 1);
    }
  }

  lemma {:induction false} PutOne(k: nat)
    ensures PutDigit(0, k, true) == Pow2(k)
  {
    if k > 0 {
      PutOne(k - 1);
    }
  }

  lemma {:induction false} OrZero(w: nat)
    ensures Or(w, 0) == w
  {
    if w > 0 {
      OrZero(w / 2);
    }
  }

  lemma OrFromZero(b: nat)
    ensures Or(0, b) == b
  {
  }

  lemma {:induction false} PutDigitFits(w: nat, k: nat, one: bool, n: nat)
    requires k < n && w < Pow2(n)
    ensures PutDigit(w, k, one) < Pow2(n)
  {
    if k > 0 {
      PutDigitFits(w / 2, k - 1, one, n - 1);
    }
  }

  // ----- masks made of fields

  /** `x << k`, without wrap-around. */
  function Shl(x: nat, k: nat): nat {
    if k == 0 then x else 2 * Shl(x, k - 1)
  }

  /** `&` works on the two parts of a split word independently. */
  lemma {:induction false} AndJoin(a: nat, b: nat, x: nat, y: nat, k: nat)
    requires a < Pow2(k) && b < Pow2(k)
    ensures And(a + Shl(x, k), b + Shl(y, k)) == And(a, b) + Shl(And(x, y), k)
  {
    hide And;
    if k == 0 {
      AndZero(0);
    } else {
      AndJoin(a / 2, b / 2, x, y, k - 1);
      Halve(a, Shl(x, k - 1));
      Halve(b, Shl(y, k - 1));
      AndStep(a + Shl(x, k), b + Shl(y, k));
      AndStep(a, b);
    }
  }

  lemma Halve(a: nat, x: nat)
    ensures (a + 2 * x) / 2 == a / 2 + x && (a + 2 * x) % 2 == a % 2
  {
  }

  lemma AndStep(a: nat, b: nat)
    ensures And(a, b) == 2 * And(a / 2, b / 2) + (if a % 2 == 1 && b % 2 == 1 then 1 else 0)
  {
  }

  /** A digit of the low part is not changed by the high part. */
  lemma {:induction false} DigitJoin(a: nat, x: nat, n: nat, k: nat)
    requires k < n
    ensures Digit(a + Shl(x, n), k) == Digit(a, k)
    decreases n
  {
    Halve(a, Shl(x, n - 1));
    if k > 0 {
      DigitJoin(a / 2, x, n - 1, k - 1);
    }
  }

  /** `|` works on the parts independently, too. */
  lemma {:induction false} OrJoin(a: nat, b: nat, x: nat, y: nat, k: nat)
    requires a < Pow2(k) && b < Pow2(k)
    ensures Or(a + Shl(x, k), b + Shl(y, k)) == Or(a, b) + Shl(Or(x, y), k)
  {
    hide Or;
    if k == 0 {
      OrZero(0);
    } else {
      OrJoin(a / 2, b / 2, x, y, k - 1);
      Halve(a, Shl(x, k - 1));
      Halve(b, Shl(y, k - 1));
      OrStep(a + Shl(x, k), b + Shl(y, k));
      OrStep(a, b);
    }
  }

  lemma OrStep(a: nat, b: nat)
    ensures Or(a, b) == 2 * Or(a / 2, b / 2) + (if a % 2 == 1 || b % 2 == 1 then 1 else 0)
  {
    if a == 0 {
      assert Or(a / 2, b / 2) == b / 2;
    }
  }

  // ----- the shifts and sizes that the code writes as constants

  lemma Shl12(x: nat)
    ensures Shl(x, 12) == 0x1000 * x
  {
    ShlFour(x, 0);
    ShlEight(x, 4);
  }

  lemma Shl40(x: nat)
    ensures Shl(x, 40) == 0x100_0000_0000 * x
  {
    Shl12(x);
    ShlFour(x, 12);
    ShlEight(x, 16);
    ShlEight(x, 24);
    ShlEight(x, 32);
  }

  lemma ShlFour(x: nat, k: nat)
    ensures Shl(x, k + 4) == 0x10 * Shl(x, k)
  {
    assert Shl(x, k + 2) == 4 * Shl(x, k);
  }

  lemma ShlEight(x: nat, k: nat)
    ensures Shl(x, k + 8) == 0x100 * Shl(x, k)
  {
    ShlFour(x, k);
    ShlFour(x, k + 4);
  }

  lemma {:induction false} Pow2IsShift(k: nat)
    ensures Pow2(k) == Shl(1, k)
  {
    if k > 0 {
      Pow2IsShift(k - 1);
    }
  }

  lemma SizeConstants()
    ensures Pow2(12) == 0x1000 && Pow2(40) == 0x100_0000_0000 && Pow2(64) == U64_LIMIT
  {
    Shl12(1);
    Shl40(1);
    ShlEight(1, 40);
    ShlEight(1, 48);
    ShlEight(1, 56);
    Pow2IsShift(12);
    Pow2IsShift(40);
    Pow2IsShift(64);
  }

  // ----- the field lemmas at the two widths in use

  lemma AndJoin12(a: nat, b: nat, x: nat, y: nat)
    requires a < 0x1000 && b < 0x1000
    ensures And(a + 0x1000 * x, b + 0x1000 * y) == And(a, b) + 0x1000 * And(x, y)
  {
    hide *;
    SizeConstants();
    Shl12(x);
    Shl12(y);
    Shl12(And(x, y));
    AndJoin(a, b, x, y, 12);
  }

  lemma OrJoin12(a: nat, b: nat, x: nat, y: nat)
    requires a < 0x1000 && b < 0x1000
    ensures Or(a + 0x1000 * x, b + 0x1000 * y) == Or(a, b) + 0x1000 * Or(x, y)
  {
    hide *;
    SizeConstants();
    Shl12(x);
    Shl12(y);
    Shl12(Or(x, y));
    OrJoin(a, b, x, y, 12);
  }

  lemma AndJoin40(a: nat, b: nat, x: nat, y: nat)
    requires a < 0x100_0000_0000 && b < 0x100_0000_0000
    ensures And(a + 0x100_0000_0000 * x, b + 0x100_0000_0000 * y) == And(a, b) + 0x100_0000_0000 * And(x, y)
  {
    hide *;
    SizeConstants();
    Shl40(x);
    Shl40(y);
    Shl40(And(x, y));
    AndJoin(a, b, x, y, 40);
  }

  lemma OrJoin40(a: nat, b: nat, x: nat, y: nat)
    requires a < 0x100_0000_0000 && b < 0x100_0000_0000
    ensures Or(a + 0x100_0000_0000 * x, b + 0x100_0000_0000 * y) == Or(a, b) + 0x100_0000_0000 * Or(x, y)
  {
    hide *;
    SizeConstants();
    Shl40(x);
    Shl40(y);
    Shl40(Or(x, y));
    OrJoin(a, b, x, y, 40);
  }

  lemma AndOnes12(w: nat)
    requires w < 0x1000
    ensures And(w, 0xfff) == w
  {
    hide *;
    SizeConstants();
    AndOnes(w, 12);
  }

  lemma AndOnes40(w: nat)
    requires w < 0x100_0000_0000
    ensures And(w, 0xff_ffff_ffff) == w
  {
    hide *;
    SizeConstants();
    AndOnes(w, 40);
  }
}

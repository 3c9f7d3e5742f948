// Conversion of integers in binary, octal and hexadecimal
// (rizzos/lib/stb_sprintf.h:978-1054).
module StbRadixes {
  import opened Bits
  import opened Numerals
  import opened StbWords

  /** Bits per digit and digits per group: l = (group << 4) | (bits << 8). */
  datatype Radix = Binary | Octal | Hex {
    function Base(): Base {
      if Binary? then 2 else if Octal? then 8 else 16
    }

    function Group(): (g: nat)
      ensures 3 <= g <= 8
    {
      if Binary? then 8 else if Octal? then 3 else 4
    }
  }

  /** h[d], in either case. */
  function Glyph(d: nat, upper: bool): (c: Byte)
    requires d < 16
  {
    if d < 10 then ('0' as int) + d else (if upper then 'A' as int else 'a' as int) + d - 10
  }

  function Glyphs(x: Digits, upper: bool): (t: seq<nat>)
    requires AreDigits(x, 16)
    ensures |t| == |x|
  {
    seq(|x|, i requires 0 <= i < |x| => Glyph(x[i], upper))
  }

  /** The characters of some digits, with commas between the groups when asked for. */
  function Spell(x: Digits, r: Radix, upper: bool, comma: bool): (t: seq<nat>)
    requires AreDigits(x, 16)
  {
    if comma then Grouped(Glyphs(x, upper), r.Group()) else Glyphs(x, upper)
  }

  /** The digits of n, one for zero. */
  function Numeral(n: nat, b: Base): (x: Digits)
    ensures AreDigits(x, b) && x != []
  {
    if n == 0 then [0] else DigitsOf(n, b)
  }

  lemma WiderStill(x: Digits, b: Base)
    requires AreDigits(x, b) && b <= 16
    ensures AreDigits(x, 16)
  {
  }

  lemma SpellGrows(d: nat, x: Digits, r: Radix, upper: bool, comma: bool)
    requires AreDigits(x, 16) && d < 16
    ensures AreDigits([d] + x, 16)
    ensures Spell([d] + x, r, upper, comma)
      == [Glyph(d, upper)] + (if comma && |x| > 0 && |x| % r.Group() == 0 then [COMMA] else []) + Spell(x, r, upper, comma)
  {
    assert Glyphs([d] + x, upper) == [Glyph(d, upper)] + Glyphs(x, upper);
    if comma {
      GroupedGrow(Glyph(d, upper), Glyphs(x, upper), r.Group());
    }
  }

  /** Zeros in front until the text, with its commas, is at least pr long. */
  function Widened(x: Digits, r: Radix, upper: bool, comma: bool, pr: int): (w: Digits)
    requires AreDigits(x, 16)
    ensures AreDigits(w, 16)
    decreases pr - |Spell(x, r, upper, comma)|
  {
    if |Spell(x, r, upper, comma)| >= pr then x
    else
      SpellGrows(0, x, r, upper, comma);
      Widened([0] + x, r, upper, comma, pr)
  }

  /** What a radix conversion shows; nothing for zero with precision zero. */
  function RadixText(n: nat, r: Radix, upper: bool, comma: bool, pr: int): seq<nat> {
    if n == 0 && pr == 0 then []
    else
      WiderStill(Numeral(n, r.Base()), r.Base());
      Spell(Widened(Numeral(n, r.Base()), r, upper, comma, pr), r, upper, comma)
  }

  function ZeroDigits(z: nat): (x: Digits)
    ensures |x| == z && AreDigits(x, 16)
  {
    seq(z, _ => 0)
  }

  lemma OneMoreZero(z: nat, x: Digits)
    ensures ZeroDigits(z) + ([0] + x) == ZeroDigits(z + 1) + x
    ensures ZeroDigits(0) + x == x
  {
  }

  lemma WidenedStep(x: Digits, r: Radix, upper: bool, comma: bool, pr: int)
    requires AreDigits(x, 16)
    ensures |Spell(x, r, upper, comma)| >= pr ==> Widened(x, r, upper, comma, pr) == x
    ensures AreDigits([0] + x, 16) && |Spell([0] + x, r, upper, comma)| > |Spell(x, r, upper, comma)|
    ensures |Spell(x, r, upper, comma)| < pr ==> (
      Widened(x, r, upper, comma, pr) == Widened([0] + x, r, upper, comma, pr))
  {
    SpellGrows(0, x, r, upper, comma);
  }

  /** The widened digits have zeros in front, as few as make the text long enough. */
  lemma {:induction false} WidenedMeaning(x: Digits, r: Radix, upper: bool, comma: bool, pr: int) returns (z: nat)
    requires AreDigits(x, 16)
    ensures Widened(x, r, upper, comma, pr) == ZeroDigits(z) + x
    ensures |Spell(ZeroDigits(z) + x, r, upper, comma)| >= pr
    ensures z > 0 ==> |Spell(ZeroDigits(z - 1) + x, r, upper, comma)| < pr
    decreases pr - |Spell(x, r, upper, comma)|
  {
    hide Spell, Widened, ZeroDigits;
    WidenedStep(x, r, upper, comma, pr);
    if |Spell(x, r, upper, comma)| < pr {
      z := WidenedMeaning([0] + x, r, upper, comma, pr);
      OneMoreZero(z, x);
      if z == 0 {
        OneMoreZero(0, x);
      } else {
        OneMoreZero(z - 1, x);
      }
      z := z + 1;
    } else {
      z := 0;
      OneMoreZero(0, x);
    }
  }

  lemma {:induction false} ZerosInFront(z: nat, x: Digits, b: Base)
    ensures ValueOf(ZeroDigits(z) + x, b) == ValueOf(x, b)
    decreases z
  {
    if z == 0 {
      OneMoreZero(0, x);
    } else {
      OneMoreZero(z - 1, x);
      ZerosInFront(z - 1, [0] + x, b);
      ValueOfJoin([0], x, b);
      NoValueOfZero(b);
      assert 0 * Power(b, |x|) == 0;
    }
  }

  lemma NoValueOfZero(b: Base)
    ensures ValueOf([0], b) == 0
  {
    assert [0][..0] == [];
  }

  lemma NoCommaGlyphs(x: Digits, upper: bool)
    requires AreDigits(x, 16)
    ensures COMMA !in Glyphs(x, upper)
  {
  }

  /**
   * What is shown, without its commas, is the numeral of n behind z zeros, and reads as n;
   * there is no zero more than the precision asks for.
   */
  lemma RadixMeaning(n: nat, r: Radix, upper: bool, comma: bool, pr: int) returns (z: nat, x: Digits)
    requires n > 0 || pr != 0
    ensures x == ZeroDigits(z) + Numeral(n, r.Base()) && AreDigits(x, 16) && ValueOf(x, r.Base()) == n
    ensures RadixText(n, r, upper, comma, pr) == Spell(x, r, upper, comma)
    ensures WithoutCommas(Spell(x, r, upper, comma)) == Glyphs(x, upper)
    ensures |RadixText(n, r, upper, comma, pr)| >= pr
    ensures z > 0 ==> AreDigits(x[1..], 16) && |Spell(x[1..], r, upper, comma)| < pr
  {
    hide DigitsOf, Widened, WithoutCommas, Grouped, ZeroDigits, ValueOf, Glyphs, Spell, Numeral;
    var b := r.Base();
    var d := Numeral(n, b);
    WiderStill(d, b);
    z := WidenedMeaning(d, r, upper, comma, pr);
    x := ZeroDigits(z) + d;
    ZerosInFront(z, d, b);
    NumeralValue(n, b);
    SpellDeleted(x, r, upper, comma);
    if z > 0 {
      FewerZeros(z, d);
    }
  }

  lemma FewerZeros(z: nat, d: Digits)
    requires z > 0
    ensures (ZeroDigits(z) + d)[1..] == ZeroDigits(z - 1) + d
  {
  }

  lemma NumeralValue(n: nat, b: Base)
    ensures ValueOf(Numeral(n, b), b) == n
  {
    ValueOfDigits(n, b);
    NoValueOfZero(b);
  }

  lemma SpellDeleted(x: Digits, r: Radix, upper: bool, comma: bool)
    requires AreDigits(x, 16)
    ensures WithoutCommas(Spell(x, r, upper, comma)) == Glyphs(x, upper)
  {
    hide WithoutCommas, Grouped;
    NoCommaGlyphs(x, upper);
    CommasDeleted(Glyphs(x, upper), r.Group());
    NothingToDelete(Glyphs(x, upper));
  }

  lemma RadixBytes(n: nat, r: Radix, upper: bool, comma: bool, pr: int)
    ensures forall i :: 0 <= i < |RadixText(n, r, upper, comma, pr)| ==> RadixText(n, r, upper, comma, pr)[i] < 256
  {
    hide DigitsOf, Widened;
    if n > 0 || pr != 0 {
      WiderStill(Numeral(n, r.Base()), r.Base());
      GroupedBytes(Glyphs(Widened(Numeral(n, r.Base()), r, upper, comma, pr), upper), r.Group());
    }
  }

  // ----- the buffer

  /** A comma stands ready for the next digit. */
  predicate Pending(k: nat, g: nat, comma: bool)
    requires g > 0
  {
    comma && k > 0 && k % g == 0
  }

  /** The buffer from s on. */
  ghost predicate Filled(num: seq<nat>, s: nat, x: Digits, r: Radix, upper: bool, comma: bool, pending: bool) {
    && |num| == NUMSZ && s <= NUMSZ && AreDigits(x, 16)
    && num[s..] == (if pending then [COMMA] else []) + Spell(x, r, upper, comma)
  }

  lemma FilledRoom(num: seq<nat>, s: nat, x: Digits, r: Radix, upper: bool, comma: bool, pending: bool)
    requires Filled(num, s, x, r, upper, comma, pending)
    ensures NUMSZ - s == |Spell(x, r, upper, comma)| + (if pending then 1 else 0)
    ensures AreDigits(x, 16) && |Spell(x, r, upper, comma)| <= 2 * |x|
  {
    GroupedLength(Glyphs(x, upper), r.Group());
  }

  lemma {:induction false} GroupedLength(t: seq<nat>, g: nat)
    requires g > 0
    ensures |Grouped(t, g)| <= 2 * |t|
    decreases |t|
  {
    if |t| > g {
      GroupedLength(t[..|t| - g], g);
    }
  }

  lemma FillDigit(num: seq<nat>, s: nat, x: Digits, r: Radix, upper: bool, comma: bool, d: nat)
    requires Filled(num, s, x, r, upper, comma, Pending(|x|, r.Group(), comma)) && s > 0 && d < 16
    ensures Filled(num[s - 1 := Glyph(d, upper)], s - 1, [d] + x, r, upper, comma, false)
  {
    hide Spell, Glyph;
    SpellGrows(d, x, r, upper, comma);
    assert num[s - 1 := Glyph(d, upper)][s - 1..] == [Glyph(d, upper)] + num[s..];
  }

  lemma FillComma(num: seq<nat>, s: nat, x: Digits, r: Radix, upper: bool, comma: bool)
    requires Filled(num, s, x, r, upper, comma, false) && s > 0
    ensures Filled(num[s - 1 := COMMA], s - 1, x, r, upper, comma, true)
  {
    hide Spell;
    assert num[s - 1 := COMMA][s - 1..] == [COMMA] + num[s..];
  }

  // ----- the loop

  /**
   * Where the loop stands: the digits x are out and n is left of the number, or nothing
   * is left and zeros are coming.
   */
  ghost predicate Under(n0: nat, n: nat, x: Digits, r: Radix, upper: bool, comma: bool, pr: int) {
    && AreDigits(x, r.Base()) && AreDigits(x, 16) && n < Power(2, 64)
    && (n > 0 ==> |x| <= 64 && n < Power(2, 64 - |x|) && DigitsOf(n0, r.Base()) == DigitsOf(n, r.Base()) + x)
    && (n == 0 && x == [] ==> n0 == 0)
    && (n == 0 && x != [] ==> (
          AreDigits(Numeral(n0, r.Base()), 16)
          && Widened(x, r, upper, comma, pr) == Widened(Numeral(n0, r.Base()), r, upper, comma, pr)))
  }

  lemma UnderStart(n0: nat, r: Radix, upper: bool, comma: bool, pr: int)
    requires n0 < U64_LIMIT
    ensures Under(n0, n0, [], r, upper, comma, pr)
  {
    hide DigitsOf, Widened;
    Limit64();
  }

  lemma Limit64()
    ensures Power(2, 64) == U64_LIMIT
  {
    hide Power;
    EightBits(0);
    EightBits(8);
    EightBits(16);
    EightBits(24);
    EightBits(32);
    EightBits(40);
    EightBits(48);
    EightBits(56);
    assert Power(2, 0) == 1 by { NoBits(); }
  }

  lemma NoBits()
    ensures Power(2, 0) == 1
  {
  }

  lemma EightBits(k: nat)
    ensures Power(2, k + 8) == 256 * Power(2, k)
  {
    assert Power(2, k + 2) == 4 * Power(2, k);
    assert Power(2, k + 4) == 16 * Power(2, k);
    assert Power(2, k + 6) == 64 * Power(2, k);
  }

  lemma MoreThanHalved(n: nat, b: Base, k: nat)
    requires 0 < n < Power(2, k)
    ensures k > 0 && n / b < Power(2, k - 1)
  {
    assert n == b * (n / b) + n % b;
    assert b * (n / b) >= 2 * (n / b) by { MulMonotone(n / b, 2, b); }
  }

  lemma DigitBelow(n: nat, b: Base)
    ensures n % b < b && (n == 0 ==> n % b == 0 && n / b == 0)
  {
  }

  lemma OneDigitFewer(n: nat, b: Base)
    requires n > 0
    ensures DigitsOf(n, b) == DigitsOf(n / b, b) + [n % b]
    ensures n / b == 0 ==> DigitsOf(n / b, b) == []
  {
  }

  lemma UnderStep(n0: nat, n: nat, x: Digits, r: Radix, upper: bool, comma: bool, pr: int)
    requires Under(n0, n, x, r, upper, comma, pr)
    requires n == 0 && x != [] ==> |Spell(x, r, upper, comma)| < pr
    ensures n % r.Base() < 16
    ensures Under(n0, n / r.Base(), [n % r.Base()] + x, r, upper, comma, pr)
  {
    hide DigitsOf, Widened, Spell, Power;
    var b := r.Base();
    DigitBelow(n, b);
    if n > 0 {
      MoreThanHalved(n, b, 64);
      MoreThanHalved(n, b, 64 - |x|);
      PowerAbove(64);
      OneDigitFewer(n, b);
      assert DigitsOf(n / b, b) + [n % b] + x == DigitsOf(n / b, b) + ([n % b] + x);
      WiderStill(Numeral(n0, b), b);
      if n / b == 0 {
        assert [] + ([n % b] + x) == [n % b] + x;
        NumeralOfDigits(n0, b, [n % b] + x);
      }
    } else if x != [] {
      WidenedStep(x, r, upper, comma, pr);
    } else {
      assert [0] + x == [0];
    }
  }

  lemma PowerAbove(k: nat)
    requires k > 0
    ensures Power(2, k - 1) <= Power(2, k)
  {
  }

  lemma NumeralOfDigits(n: nat, b: Base, x: Digits)
    requires DigitsOf(n, b) == x && x != []
    ensures Numeral(n, b) == x
  {
  }

  lemma UnderDone(n0: nat, x: Digits, r: Radix, upper: bool, comma: bool, pr: int)
    requires Under(n0, 0, x, r, upper, comma, pr) && x != [] && |Spell(x, r, upper, comma)| >= pr && (n0 > 0 || pr != 0)
    ensures Spell(x, r, upper, comma) == RadixText(n0, r, upper, comma, pr)
  {
    hide DigitsOf, Spell, Power;
    WidenedStep(x, r, upper, comma, pr);
  }

  lemma UnderRoom(n0: nat, n: nat, x: Digits, r: Radix, upper: bool, comma: bool, pr: int)
    requires Under(n0, n, x, r, upper, comma, pr)
    ensures n > 0 ==> |x| <= 64
    ensures AreDigits(x, 16)
  {
  }

  lemma CountOn(k: nat, g: nat)
    requires g >= 3
    ensures (k + 1) % g == if k % g + 1 == g then 0 else k % g + 1
  {
    var q, c := k / g, k % g;
    assert k == q * g + c;
    if c + 1 == g {
      assert k + 1 == (q + 1) * g + 0;
      DivideBack(q + 1, 0, g);
    } else {
      DivideBack(q, c + 1, g);
    }
  }

  /** *--s = c. */
  method PutBefore(num: array<nat>, s0: nat, c: nat) returns (s: nat)
    requires 0 < s0 <= num.Length
    modifies num
    ensures s == s0 - 1 && num[..] == old(num[..])[s0 - 1 := c]
  {
    s := s0 - 1;
    num[s] := c;
  }

  /** The loop at radixnum; the text ends at the end of num and starts at s. */
  method ConvertRadix(num: array<nat>, n0: nat, r: Radix, upper: bool, comma: bool, pr: int) returns (s: nat)
    requires num.Length == NUMSZ && n0 < U64_LIMIT && pr < NUMSZ && (n0 > 0 || pr != 0)
    modifies num
    ensures s <= NUMSZ && num[s..] == RadixText(n0, r, upper, comma, pr)
  {
    hide Under, Filled, Spell, RadixText, Glyph, Pending;
    s := NUMSZ;
    var n: nat, l: nat := n0, 0;
    ghost var x: Digits := [];
    UnderStart(n0, r, upper, comma, pr);
    FilledNone(num[..], r, upper, comma);
    PendingIs(0, r.Group(), comma);
    while true
      invariant s <= NUMSZ && Under(n0, n, x, r, upper, comma, pr)
      invariant Filled(num[..], s, x, r, upper, comma, Pending(|x|, r.Group(), comma))
      invariant comma ==> l == |x| % r.Group()
      invariant AreDigits(x, 16) && (n == 0 && x != [] ==> |Spell(x, r, upper, comma)| < pr)
      decreases n, s
    {
      UnderRoom(n0, n, x, r, upper, comma, pr);
      FilledRoom(num[..], s, x, r, upper, comma, Pending(|x|, r.Group(), comma));
      UnderStep(n0, n, x, r, upper, comma, pr);
      FillDigit(num[..], s, x, r, upper, comma, n % r.Base());
      if n > 0 {
        Quotient(n, r.Base());
      }
      DigitBelow(n, r.Base());
      s := PutBefore(num, s, Glyph(n % r.Base(), upper));
      x := [n % r.Base()] + x;
      n := n / r.Base();
      FilledRoom(num[..], s, x, r, upper, comma, false);
      if !(n != 0 || NUMSZ - s < pr) {
        break;
      }
      CountOn(|x| - 1, r.Group());
      PendingIs(|x|, r.Group(), comma);
      if comma {
        l := l + 1;
        if l == r.Group() {
          l := 0;
          FillComma(num[..], s, x, r, upper, comma);
          s := PutBefore(num, s, COMMA);
        }
      }
    }
    UnderDone(n0, x, r, upper, comma, pr);
    FilledText(num[..], s, x, r, upper, comma);
  }

  lemma PendingIs(k: nat, g: nat, comma: bool)
    requires g > 0
    ensures Pending(k, g, comma) <==> comma && k > 0 && k % g == 0
  {
  }

  lemma FilledNone(num: seq<nat>, r: Radix, upper: bool, comma: bool)
    requires |num| == NUMSZ
    ensures Filled(num, NUMSZ, [], r, upper, comma, false)
  {
    FewGrouped(Glyphs([], upper), r.Group());
    assert num[NUMSZ..] == [];
  }

  lemma FilledText(num: seq<nat>, s: nat, x: Digits, r: Radix, upper: bool, comma: bool)
    requires Filled(num, s, x, r, upper, comma, false)
    ensures num[s..] == Spell(x, r, upper, comma)
  {
  }
}

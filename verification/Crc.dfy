// The CRC that guards UEFI table headers (bootloader/gnu-efi/lib/crc.c; section 4.2
// of the UEFI Specification, section 8 of RFC 1952).
module Crcs {
  import opened CrcTables

  type Bytes = seq<bv8>

  const ALL_ONES: bv32 := 0xffffffff

  // ----- the register

  /** One byte, as the loop of CalculateCrc treats it. */
  function TableStep(c: bv32, b: bv8): bv32 {
    Xor(c >> 8, Lookup(((c & 0xff) as bv8) ^ b))
  }

  /** The register after a message. */
  function Register(c: bv32, s: Bytes): bv32 {
    if s == [] then c else TableStep(Register(c, s[..|s| - 1]), s[|s| - 1])
  }

  function Crc(s: Bytes): bv32 {
    Xor(Register(ALL_ONES, s), ALL_ONES)
  }

  /** CalculateCrc, with the size of the message as the length of the sequence. */
  method CalculateCrc(s: Bytes) returns (crc: bv32)
    ensures crc == Crc(s)
  {
    hide Lookup, Xor;
    crc := ALL_ONES;
    var pt, size := 0, |s|;
    while size > 0
      invariant 0 <= size <= |s| && pt == |s| - size && crc == Register(ALL_ONES, s[..pt])
    {
      assert s[..pt + 1][..pt] == s[..pt];
      crc := Xor(crc >> 8, Lookup(((crc & 0xff) as bv8) ^ s[pt]));
      pt := pt + 1;
      size := size - 1;
    }
    assert s[..|s|] == s;
    crc := Xor(crc, ALL_ONES);
  }

  // ----- what the start value and the complement are

  lemma RegisterMore(c: bv32, s: Bytes, b: bv8)
    ensures Register(c, s + [b]) == TableStep(Register(c, s), b)
  {
    assert (s + [b])[..|s + [b]| - 1] == s;
  }

  lemma RegisterNothing(c: bv32)
    ensures Register(c, []) == c
  {
  }

  lemma EmptyMessage()
    ensures Crc([]) == 0
  {
  }

  /** The CRC of a single zero byte. */
  lemma ZeroByte()
    ensures Crc([0]) == 0xD202EF8D
  {
    assert [0][..0] == [];
  }

  // The register while the message "123456789" is read.
  lemma Check1() ensures TableStep(0xFFFFFFFF, 0x31) == 0x7C231048 {}
  lemma Check2() ensures TableStep(0x7C231048, 0x32) == 0xB0ACBB32 {}
  lemma Check3() ensures TableStep(0xB0ACBB32, 0x33) == 0x77B79C2D {}
  lemma Check4() ensures TableStep(0x77B79C2D, 0x34) == 0x641C1F5C {}
  lemma Check5() ensures TableStep(0x641C1F5C, 0x35) == 0x340AC5E3 {}
  lemma Check6() ensures TableStep(0x340AC5E3, 0x36) == 0xF68D2C9E {}
  lemma Check7() ensures TableStep(0xF68D2C9E, 0x37) == 0xAFFC9660 {}
  lemma Check8() ensures TableStep(0xAFFC9660, 0x38) == 0x651F2550 {}
  lemma Check9() ensures TableStep(0x651F2550, 0x39) == 0x340BC6D9 {}

  /** The check value of the CRC: that of the message "123456789". */
  lemma CheckValue()
    ensures Crc([0x31, 0x32, 0x33, 0x34, 0x35, 0x36, 0x37, 0x38, 0x39]) == 0xCBF43926
  {
    hide TableStep, Register;
    var s0: Bytes := [];
    RegisterNothing(ALL_ONES);
    var s1 := s0 + [0x31];
    RegisterMore(ALL_ONES, s0, 0x31);
    Check1();
    var s2 := s1 + [0x32];
    RegisterMore(ALL_ONES, s1, 0x32);
    Check2();
    var s3 := s2 + [0x33];
    RegisterMore(ALL_ONES, s2, 0x33);
    Check3();
    var s4 := s3 + [0x34];
    RegisterMore(ALL_ONES, s3, 0x34);
    Check4();
    var s5 := s4 + [0x35];
    RegisterMore(ALL_ONES, s4, 0x35);
    Check5();
    var s6 := s5 + [0x36];
    RegisterMore(ALL_ONES, s5, 0x36);
    Check6();
    var s7 := s6 + [0x37];
    RegisterMore(ALL_ONES, s6, 0x37);
    Check7();
    var s8 := s7 + [0x38];
    RegisterMore(ALL_ONES, s7, 0x38);
    Check8();
    var s9 := s8 + [0x39];
    RegisterMore(ALL_ONES, s8, 0x39);
    Check9();
    assert s9 == [0x31, 0x32, 0x33, 0x34, 0x35, 0x36, 0x37, 0x38, 0x39];
    Complement(0x340BC6D9);
  }

  lemma Complement(c: bv32)
    ensures Xor(c, ALL_ONES) == !c
  {
  }

  // ----- division bit by bit

  /** One message bit enters the division register. */
  function Feed(c: bv32, bit: bool): bv32 {
    BitStep(Xor(c, if bit then 1 else 0))
  }

  /** The register after dividing the message bits, first bit first. */
  function Divide(c: bv32, bits: seq<bool>): bv32 {
    if bits == [] then c else Feed(Divide(c, bits[..|bits| - 1]), bits[|bits| - 1])
  }

  /** The bits of a byte, lowest first. */
  function BitsOfByte(b: bv8): (bits: seq<bool>)
    ensures |bits| == 8
  {
    [b & 1 == 1, (b >> 1) & 1 == 1, (b >> 2) & 1 == 1, (b >> 3) & 1 == 1,
     (b >> 4) & 1 == 1, (b >> 5) & 1 == 1, (b >> 6) & 1 == 1, (b >> 7) & 1 == 1]
  }

  function MessageBits(s: Bytes): (bits: seq<bool>)
    ensures |bits| == 8 * |s|
  {
    if s == [] then [] else MessageBits(s[..|s| - 1]) + BitsOfByte(s[|s| - 1])
  }

  lemma {:induction false} DivideAppend(c: bv32, x: seq<bool>, y: seq<bool>)
    ensures Divide(c, x + y) == Divide(Divide(c, x), y)
    decreases |y|
  {
    hide Feed;
    if y == [] {
      assert x + y == x;
    } else {
      assert (x + y)[..|x + y| - 1] == x + y[..|y| - 1];
      DivideAppend(c, x, y[..|y| - 1]);
    }
  }

  // ----- one byte at a time or one bit at a time

  lemma XorAssoc(a: bv32, b: bv32, c: bv32)
    ensures Xor(Xor(a, b), c) == Xor(a, Xor(b, c))
  {
  }

  /** A step on a register whose low bit is clear is a shift. */
  lemma StepShifts(b: bv32)
    ensures b == Xor(b & 1, b & 0xfffffffe)
    ensures BitStep(b & 0xfffffffe) == b >> 1
  {
  }

  /** Message bits may be added to the register all at once, ahead of the steps. */
  lemma FeedLater(c: bv32, b: bv32)
    ensures BitStep(Xor(c, b)) == Xor(Feed(c, b & 1 == 1), b >> 1)
  {
    hide BitStep, Xor;
    StepShifts(b);
    LowBit(b);
    XorAssoc(c, b & 1, b & 0xfffffffe);
    BitStepLinear(Xor(c, b & 1), b & 0xfffffffe);
  }

  /** Bit i of a byte, read from the widened byte. */
  function WideBit(w: bv32): bool {
    w & 1 == 1
  }

  function Half(w: bv32): bv32 {
    w >> 1
  }

  lemma HalvesOfByte(b: bv8)
    ensures var w0 := b as bv32;
      var w1 := Half(w0);
      var w2 := Half(w1);
      var w3 := Half(w2);
      var w4 := Half(w3);
      var w5 := Half(w4);
      var w6 := Half(w5);
      var w7 := Half(w6);
      && BitsOfByte(b) == [WideBit(w0), WideBit(w1), WideBit(w2), WideBit(w3),
                           WideBit(w4), WideBit(w5), WideBit(w6), WideBit(w7)]
      && Half(w7) == 0
  {
  }

  lemma XorZero(c: bv32)
    ensures Xor(c, 0) == c
  {
  }

  lemma FeedHalf(c: bv32, w: bv32)
    ensures BitStep(Xor(c, w)) == Xor(Feed(c, WideBit(w)), Half(w))
  {
    FeedLater(c, w);
  }

  /** The register after the four low bits of w are fed. */
  function FeedFour(c: bv32, w: bv32): bv32 {
    Feed(Feed(Feed(Feed(c, WideBit(w)), WideBit(Half(w))), WideBit(Half(Half(w)))), WideBit(Half(Half(Half(w)))))
  }

  lemma FourSteps(c: bv32, w: bv32)
    ensures BitStep(BitStep(BitStep(BitStep(Xor(c, w))))) == Xor(FeedFour(c, w), Half(Half(Half(Half(w)))))
  {
    hide BitStep, Xor, Feed, Half, WideBit;
    FeedHalf(c, w);
    var c1, w1 := Feed(c, WideBit(w)), Half(w);
    FeedHalf(c1, w1);
    var c2, w2 := Feed(c1, WideBit(w1)), Half(w1);
    FeedHalf(c2, w2);
    FeedHalf(Feed(c2, WideBit(w2)), Half(w2));
  }

  lemma FourFeeds(c: bv32, w: bv32)
    ensures Divide(c, [WideBit(w), WideBit(Half(w)), WideBit(Half(Half(w))), WideBit(Half(Half(Half(w))))])
      == FeedFour(c, w)
  {
    hide Feed, Divide, Half, WideBit;
    var (b0, b1, b2, b3) := (WideBit(w), WideBit(Half(w)), WideBit(Half(Half(w))), WideBit(Half(Half(Half(w)))));
    DivideNothing(c);
    DivideOne(c, [], b0);
    DivideOne(c, [b0], b1);
    DivideOne(c, [b0, b1], b2);
    DivideOne(c, [b0, b1, b2], b3);
    assert [] + [b0] == [b0] && [b0] + [b1] == [b0, b1] && [b0, b1] + [b2] == [b0, b1, b2];
    assert [b0, b1, b2] + [b3] == [b0, b1, b2, b3];
  }

  lemma DivideOne(c: bv32, s: seq<bool>, b: bool)
    ensures Divide(c, s + [b]) == Feed(Divide(c, s), b)
  {
    assert (s + [b])[..|s + [b]| - 1] == s;
  }

  lemma DivideNothing(c: bv32)
    ensures Divide(c, []) == c
  {
  }

  /** Eight steps with the byte added first are eight bits fed one by one. */
  lemma StepsAreFeeds(c: bv32, b: bv8)
    ensures EightSteps(Xor(c, b as bv32)) == Divide(c, BitsOfByte(b))
  {
    HalvesOfByte(b);
    hide BitStep, Xor, FeedFour, Half, WideBit, BitsOfByte, Divide;
    var w := b as bv32;
    var v := Half(Half(Half(Half(w))));
    FourSteps(c, w);
    FourSteps(FeedFour(c, w), v);
    XorZero(FeedFour(FeedFour(c, w), v));
    FourFeeds(c, w);
    FourFeeds(FeedFour(c, w), v);
    var low := [WideBit(w), WideBit(Half(w)), WideBit(Half(Half(w))), WideBit(Half(Half(Half(w))))];
    var high := [WideBit(v), WideBit(Half(v)), WideBit(Half(Half(v))), WideBit(Half(Half(Half(v))))];
    DivideAppend(c, low, high);
    assert BitsOfByte(b) == low + high;
  }

  // ----- the high part of the register only moves

  lemma EvenStep(x: bv32)
    requires x & 1 == 0
    ensures BitStep(x) == Half(x)
  {
  }

  lemma HighBits(c: bv32)
    ensures var h := c & 0xffffff00;
      && h & 1 == 0 && Half(h) & 1 == 0 && Half(Half(h)) & 1 == 0 && Half(Half(Half(h))) & 1 == 0
      && Half(Half(Half(Half(h)))) & 1 == 0 && Half(Half(Half(Half(Half(h))))) & 1 == 0
      && Half(Half(Half(Half(Half(Half(h)))))) & 1 == 0 && Half(Half(Half(Half(Half(Half(Half(h))))))) & 1 == 0
  {
  }

  lemma HighShifted(c: bv32)
    ensures Half(Half(Half(Half(Half(Half(Half(Half(c & 0xffffff00)))))))) == c >> 8
  {
  }

  lemma HighMoves(c: bv32)
    ensures EightSteps(c & 0xffffff00) == c >> 8
  {
    HighBits(c);
    HighShifted(c);
    hide BitStep, Half;
    var h0 := c & 0xffffff00;
    EvenStep(h0);
    EvenStep(Half(h0));
    EvenStep(Half(Half(h0)));
    EvenStep(Half(Half(Half(h0))));
    EvenStep(Half(Half(Half(Half(h0)))));
    EvenStep(Half(Half(Half(Half(Half(h0))))));
    EvenStep(Half(Half(Half(Half(Half(Half(h0)))))));
    EvenStep(Half(Half(Half(Half(Half(Half(Half(h0))))))));
  }

  lemma SplitRegister(c: bv32, b: bv8)
    ensures Xor(c, b as bv32) == Xor(c & 0xffffff00, (((c & 0xff) as bv8) ^ b) as bv32)
  {
  }

  /** A table step is eight steps of division. */
  lemma TableStepIsDivision(c: bv32, b: bv8)
    ensures TableStep(c, b) == Divide(c, BitsOfByte(b))
  {
    hide Xor, EightSteps, Lookup, Divide;
    LookupIsSteps(((c & 0xff) as bv8) ^ b);
    HighMoves(c);
    EightStepsLinear(c & 0xffffff00, (((c & 0xff) as bv8) ^ b) as bv32);
    SplitRegister(c, b);
    StepsAreFeeds(c, b);
  }

  /** The table-driven register is the remainder of division bit by bit, for every message. */
  lemma {:induction false} RegisterIsDivision(c: bv32, s: Bytes)
    ensures Register(c, s) == Divide(c, MessageBits(s))
    decreases |s|
  {
    hide TableStep, Divide;
    if s == [] {
      DivideNothing(c);
    } else {
      var n := |s| - 1;
      RegisterIsDivision(c, s[..n]);
      TableStepIsDivision(Register(c, s[..n]), s[n]);
      DivideAppend(c, MessageBits(s[..n]), BitsOfByte(s[n]));
    }
  }

  // ----- error detection

  /** A mask without its k low bits. */
  function HighMask(k: nat): bv32 {
    if k == 0 then 0xffffffff else Double(HighMask(k - 1))
  }

  function Double(x: bv32): bv32 {
    x << 1
  }

  lemma DoubleFour(x: bv32)
    ensures Double(Double(Double(Double(x)))) == x << 4
  {
  }

  lemma HighMaskOne(k: nat)
    ensures HighMask(k + 1) == Double(HighMask(k))
  {
    hide Double;
  }

  lemma HighMaskFour(k: nat)
    ensures HighMask(k + 4) == HighMask(k) << 4
  {
    DoubleFour(HighMask(k));
    hide Double, HighMask;
    HighMaskOne(k);
    HighMaskOne(k + 1);
    HighMaskOne(k + 2);
    HighMaskOne(k + 3);
  }

  lemma {:induction false} HighMaskShrinks(k: nat)
    ensures HighMask(k) & HighMask(k + 1) == HighMask(k + 1)
  {
    if k > 0 {
      HighMaskShrinks(k - 1);
    }
  }

  lemma HighMask32()
    ensures HighMask(32) == 0 && HighMask(31) == 0x80000000
  {
    hide HighMask;
    HighMaskFour(0); HighMaskFour(4); HighMaskFour(8); HighMaskFour(12);
    HighMaskFour(16); HighMaskFour(20); HighMaskFour(24); HighMaskFour(28);
    HighMaskStart();
    HighMaskOne(28); HighMaskOne(29); HighMaskOne(30);
  }

  lemma HighMaskStart()
    ensures HighMask(0) == 0xffffffff
  {
  }

  predicate TopSet(m: bv32) {
    m & 0x80000000 == 0x80000000
  }

  /** d has no bit under the mask. */
  predicate Clear(d: bv32, m: bv32) {
    d & m == 0
  }

  /** The mask keeps the top bit as long as fewer than 32 bits are left out. */
  lemma {:induction false} HighMaskTop(k: nat)
    requires k <= 31
    ensures TopSet(HighMask(k))
    decreases 31 - k
  {
    if k == 31 {
      HighMask32();
    } else {
      HighMaskTop(k + 1);
      HighMaskShrinks(k);
      SubMask(HighMask(k), HighMask(k + 1));
    }
  }

  lemma SubMask(m: bv32, n: bv32)
    requires m & n == n && TopSet(n)
    ensures TopSet(m)
  {
  }

  /** Undoing a step: if the result is clear under a mask with the top bit, the low bit was clear. */
  lemma BackStep(d: bv32, m: bv32)
    requires TopSet(m) && Clear(BitStep(d), m)
    ensures Clear(d, 1)
  {
  }

  lemma BackShift(d: bv32, m: bv32)
    requires Clear(d, 1) && Clear(BitStep(d), m)
    ensures Clear(d, Double(m))
  {
  }

  lemma FeedDifference(a: bv32, b: bv32, x: bool, y: bool)
    ensures Xor(Feed(a, x), Feed(b, y)) == BitStep(Xor(Xor(a, b), if x == y then 0 else 1))
  {
    var p, q: bv32 := if x then 1 else 0, if y then 1 else 0;
    XorSwap(a, p, b, q);
    assert Xor(p, q) == if x == y then 0 else 1;
    hide Xor, BitStep;
    BitStepLinear(Xor(a, p), Xor(b, q));
  }

  lemma XorCommutes(a: bv32, b: bv32)
    ensures Xor(a, b) == Xor(b, a)
  {
  }

  lemma XorSwap(a: bv32, p: bv32, b: bv32, q: bv32)
    ensures Xor(Xor(a, p), Xor(b, q)) == Xor(Xor(a, b), Xor(p, q))
  {
    hide Xor;
    XorAssoc(a, p, Xor(b, q));
    XorAssoc(p, b, q);
    XorCommutes(p, b);
    XorAssoc(b, p, q);
    XorAssoc(a, b, Xor(p, q));
  }

  lemma LowBitOfDifference(d: bv32, m: bv32)
    requires Clear(Xor(d, 1), Double(m))
    ensures Clear(d, Double(m))
  {
  }

  lemma XorSelf(a: bv32)
    ensures Xor(a, a) == 0
  {
  }

  lemma XorNothing(a: bv32, b: bv32)
    requires Xor(a, b) == 0
    ensures a == b
  {
  }

  lemma StepNothing(d: bv32)
    requires BitStep(d) == 0
    ensures d == 0
  {
  }

  lemma ZeroClear(m: bv32)
    ensures Clear(0, m)
  {
  }

  /** Undoing one bit: a difference that is clear under a mask was clear under the doubled mask. */
  lemma BackFeed(u: bv32, v: bv32, x: bool, y: bool, m: bv32)
    requires TopSet(m) && Clear(Xor(Feed(u, x), Feed(v, y)), m)
    ensures Clear(Xor(Xor(u, v), if x == y then 0 else 1), 1)
    ensures Clear(Xor(u, v), Double(m))
  {
    hide Feed, BitStep, Xor, Double, Clear, TopSet;
    var d := Xor(u, v);
    var e: bv32 := if x == y then 0 else 1;
    FeedDifference(u, v, x, y);
    BackStep(Xor(d, e), m);
    BackShift(Xor(d, e), m);
    if x == y {
      XorZero(d);
    } else {
      LowBitOfDifference(d, m);
    }
  }

  /** Before each of the last k bits two divisions with one result agree in all but k low bits. */
  lemma {:induction false} BackRun(c: bv32, xs: seq<bool>, ys: seq<bool>, k: nat)
    requires |xs| == |ys| && k <= |xs| && k <= 32
    requires Divide(c, xs) == Divide(c, ys)
    ensures Clear(Xor(Divide(c, xs[..|xs| - k]), Divide(c, ys[..|ys| - k])), HighMask(k))
  {
    hide Feed, BitStep, Xor, Double, Clear, TopSet;
    var n := |xs| - k;
    if k == 0 {
      assert xs[..n] == xs && ys[..n] == ys;
      XorSelf(Divide(c, xs));
      ZeroClear(HighMask(0));
    } else {
      BackRun(c, xs, ys, k - 1);
      HighMaskTop(k - 1);
      PrefixStep(c, xs, n);
      PrefixStep(c, ys, n);
      hide Divide;
      BackFeed(Divide(c, xs[..n]), Divide(c, ys[..n]), xs[n], ys[n], HighMask(k - 1));
    }
  }

  lemma PrefixStep(c: bv32, xs: seq<bool>, n: nat)
    requires n < |xs|
    ensures Divide(c, xs[..n + 1]) == Feed(Divide(c, xs[..n]), xs[n])
  {
    assert xs[..n + 1][..n] == xs[..n];
  }

  /** With at most 32 bits to go, equal results mean that the next bit is the same. */
  lemma NextBitSame(c: bv32, xs: seq<bool>, ys: seq<bool>, j: nat)
    requires |xs| == |ys| && j < |xs| <= j + 32 && xs[..j] == ys[..j]
    requires Divide(c, xs) == Divide(c, ys)
    ensures xs[j] == ys[j]
  {
    hide Feed, BitStep, Xor, Double, HighMask, Clear, TopSet, Divide;
    var k := |xs| - j - 1;
    BackRun(c, xs, ys, k);
    HighMaskTop(k);
    PrefixStep(c, xs, j);
    PrefixStep(c, ys, j);
    SameBit(Divide(c, xs[..j]), xs[j], ys[j], HighMask(k));
  }

  lemma SameBit(u: bv32, x: bool, y: bool, m: bv32)
    requires TopSet(m) && Clear(Xor(Feed(u, x), Feed(u, y)), m)
    ensures x == y
  {
    hide Feed, Xor, Double, Clear, TopSet;
    BackFeed(u, u, x, y, m);
    XorSelf(u);
    OneIsOdd();
  }

  lemma OneIsOdd()
    ensures !Clear(Xor(0, 1), 1)
  {
  }

  lemma FeedInjective(a: bv32, b: bv32, x: bool)
    requires Feed(a, x) == Feed(b, x)
    ensures a == b
  {
    hide Feed, BitStep, Xor;
    FeedDifference(a, b, x, x);
    XorSelf(Feed(a, x));
    XorZero(Xor(a, b));
    StepNothing(Xor(a, b));
    XorNothing(a, b);
  }

  lemma {:induction false} CommonSuffix(c: bv32, xs: seq<bool>, ys: seq<bool>, e: nat)
    requires |xs| == |ys| && e <= |xs| && xs[e..] == ys[e..]
    requires Divide(c, xs) == Divide(c, ys)
    ensures Divide(c, xs[..e]) == Divide(c, ys[..e])
    decreases |xs| - e
  {
    hide Feed;
    if e == |xs| {
      assert xs[..e] == xs && ys[..e] == ys;
    } else {
      assert xs[e + 1..] == xs[e..][1..] && ys[e + 1..] == ys[e..][1..];
      assert xs[e] == xs[e..][0] && ys[e] == ys[e..][0];
      CommonSuffix(c, xs, ys, e + 1);
      PrefixStep(c, xs, e);
      PrefixStep(c, ys, e);
      FeedInjective(Divide(c, xs[..e]), Divide(c, ys[..e]), xs[e]);
    }
  }

  lemma {:induction false} WindowSame(c: bv32, xs: seq<bool>, ys: seq<bool>, i: nat, j: nat)
    requires |xs| == |ys| && i <= j <= |xs| <= i + 32 && xs[..i] == ys[..i]
    requires Divide(c, xs) == Divide(c, ys)
    ensures xs[..j] == ys[..j]
    decreases j
  {
    hide Divide;
    if j > i {
      WindowSame(c, xs, ys, i, j - 1);
      NextBitSame(c, xs, ys, j - 1);
      assert xs[..j] == xs[..j - 1] + [xs[j - 1]] && ys[..j] == ys[..j - 1] + [ys[j - 1]];
    }
  }

  /** A burst: two bit strings that agree outside a window of 32 bits and differ inside it. */
  ghost predicate Burst(xs: seq<bool>, ys: seq<bool>, i: nat) {
    && |xs| == |ys| && xs != ys && i <= |xs|
    && xs[..i] == ys[..i]
    && (i + 32 <= |xs| ==> xs[i + 32..] == ys[i + 32..])
  }

  /** Every burst of at most 32 bits, wherever it starts, changes the remainder. */
  lemma BurstDetected(c: bv32, xs: seq<bool>, ys: seq<bool>, i: nat)
    requires Burst(xs, ys, i)
    ensures Divide(c, xs) != Divide(c, ys)
  {
    hide Divide;
    if Divide(c, xs) == Divide(c, ys) {
      var e := if i + 32 <= |xs| then i + 32 else |xs|;
      assert xs[e..] == ys[e..];
      CommonSuffix(c, xs, ys, e);
      assert xs[..e][..i] == xs[..i] && ys[..e][..i] == ys[..i];
      assert xs[..e][..e] == xs[..e] && ys[..e][..e] == ys[..e];
      assert xs == xs[..e] + xs[e..] && ys == ys[..e] + ys[e..];
      WindowSame(c, xs[..e], ys[..e], i, e);
    }
  }

  /** Messages whose bits differ in one burst have different CRCs. */
  lemma CrcDetectsBurst(s: Bytes, t: Bytes, i: nat)
    requires Burst(MessageBits(s), MessageBits(t), i)
    ensures Crc(s) != Crc(t)
  {
    hide Register, Xor, Divide, MessageBits;
    BurstDetected(ALL_ONES, MessageBits(s), MessageBits(t), i);
    RegisterIsDivision(ALL_ONES, s);
    RegisterIsDivision(ALL_ONES, t);
    XorInjective(Register(ALL_ONES, s), Register(ALL_ONES, t), ALL_ONES);
  }

  lemma XorInjective(a: bv32, b: bv32, p: bv32)
    requires a != b
    ensures Xor(a, p) != Xor(b, p)
  {
  }

  // ----- bursts of bytes

  lemma {:induction false} MessageBitsAppend(s: Bytes, t: Bytes)
    ensures MessageBits(s + t) == MessageBits(s) + MessageBits(t)
    decreases |t|
  {
    hide BitsOfByte;
    if t == [] {
      assert s + t == s;
    } else {
      assert (s + t)[..|s + t| - 1] == s + t[..|t| - 1];
      MessageBitsAppend(s, t[..|t| - 1]);
    }
  }

  lemma ByteFromBits(a: bv8, b: bv8)
    requires BitsOfByte(a) == BitsOfByte(b)
    ensures a == b
  {
    assert BitsOfByte(a)[0] == BitsOfByte(b)[0] && BitsOfByte(a)[1] == BitsOfByte(b)[1];
    assert BitsOfByte(a)[2] == BitsOfByte(b)[2] && BitsOfByte(a)[3] == BitsOfByte(b)[3];
    assert BitsOfByte(a)[4] == BitsOfByte(b)[4] && BitsOfByte(a)[5] == BitsOfByte(b)[5];
    assert BitsOfByte(a)[6] == BitsOfByte(b)[6] && BitsOfByte(a)[7] == BitsOfByte(b)[7];
  }

  lemma {:induction false} MessageFromBits(s: Bytes, t: Bytes)
    requires MessageBits(s) == MessageBits(t)
    ensures s == t
    decreases |s|
  {
    hide BitsOfByte;
    if s != [] {
      var n := |s| - 1;
      assert MessageBits(s)[..8 * n] == MessageBits(s[..n]) && MessageBits(t)[..8 * n] == MessageBits(t[..n]);
      assert MessageBits(s)[8 * n..] == BitsOfByte(s[n]) && MessageBits(t)[8 * n..] == BitsOfByte(t[n]);
      MessageFromBits(s[..n], t[..n]);
      ByteFromBits(s[n], t[n]);
      assert s == s[..n] + [s[n]] && t == t[..n] + [t[n]];
    }
  }

  /** Messages that differ, and differ only inside four consecutive bytes, have different CRCs. */
  lemma CrcDetectsFourBytes(s: Bytes, t: Bytes, k: nat)
    requires |s| == |t| && s != t && k <= |s| && s[..k] == t[..k]
    requires k + 4 <= |s| ==> s[k + 4..] == t[k + 4..]
    ensures Crc(s) != Crc(t)
  {
    hide MessageBits, Crc;
    if MessageBits(s) == MessageBits(t) {
      MessageFromBits(s, t);
    }
    BitsAround(s, k);
    BitsAround(t, k);
    if k + 4 <= |s| {
      BitsAround(s, k + 4);
      BitsAround(t, k + 4);
    }
    CrcDetectsBurst(s, t, 8 * k);
  }

  lemma BitsAround(s: Bytes, k: nat)
    requires k <= |s|
    ensures MessageBits(s)[..8 * k] == MessageBits(s[..k]) && MessageBits(s)[8 * k..] == MessageBits(s[k..])
  {
    hide MessageBits;
    MessageBitsAppend(s[..k], s[k..]);
    assert s == s[..k] + s[k..];
  }

  // ----- zeros in front, and the message with its own CRC

  function ZeroBytes(k: nat): (s: Bytes)
    ensures |s| == k
  {
    seq(k, _ => 0)
  }

  lemma {:induction false} RegisterAppend(c: bv32, s: Bytes, t: Bytes)
    ensures Register(c, s + t) == Register(Register(c, s), t)
    decreases |t|
  {
    hide TableStep;
    if t == [] {
      assert s + t == s;
    } else {
      assert (s + t)[..|s + t| - 1] == s + t[..|t| - 1];
      RegisterAppend(c, s, t[..|t| - 1]);
    }
  }

  lemma {:induction false} DivideInjective(a: bv32, b: bv32, bits: seq<bool>)
    requires Divide(a, bits) == Divide(b, bits)
    ensures a == b
    decreases |bits|
  {
    hide Feed;
    if bits != [] {
      var n := |bits| - 1;
      FeedInjective(Divide(a, bits[..n]), Divide(b, bits[..n]), bits[n]);
      DivideInjective(a, b, bits[..n]);
    }
  }

  /** Zero bytes in front leave the CRC alone exactly when they leave the start value alone. */
  lemma ZerosInFront(k: nat, s: Bytes)
    ensures Crc(ZeroBytes(k) + s) == Crc(s) <==> Register(ALL_ONES, ZeroBytes(k)) == ALL_ONES
  {
    hide Register, Divide, Xor, ZeroBytes;
    var c := Register(ALL_ONES, ZeroBytes(k));
    RegisterAppend(ALL_ONES, ZeroBytes(k), s);
    if Register(c, s) == Register(ALL_ONES, s) {
      RegisterIsDivision(c, s);
      RegisterIsDivision(ALL_ONES, s);
      DivideInjective(c, ALL_ONES, MessageBits(s));
    } else {
      XorInjective(Register(c, s), Register(ALL_ONES, s), ALL_ONES);
    }
  }

  lemma Zero1() ensures TableStep(0xFFFFFFFF, 0) == 0x2DFD1072 {}
  lemma Zero2() ensures TableStep(0x2DFD1072, 0) == 0xBE26ED00 {}
  lemma Zero3() ensures TableStep(0xBE26ED00, 0) == 0x00BE26ED {}
  lemma Zero4() ensures TableStep(0x00BE26ED, 0) == 0xDEBB20E3 {}

  lemma FourZeros()
    ensures Register(ALL_ONES, ZeroBytes(1)) == 0x2DFD1072 && Register(ALL_ONES, ZeroBytes(2)) == 0xBE26ED00
    ensures Register(ALL_ONES, ZeroBytes(3)) == 0x00BE26ED && Register(ALL_ONES, ZeroBytes(4)) == 0xDEBB20E3
  {
    hide TableStep, Register;
    RegisterNothing(ALL_ONES);
    OneMoreZero(0);
    OneMoreZero(1);
    OneMoreZero(2);
    OneMoreZero(3);
    Zero1();
    Zero2();
    Zero3();
    Zero4();
  }

  lemma OneMoreZero(k: nat)
    ensures Register(ALL_ONES, ZeroBytes(k + 1)) == TableStep(Register(ALL_ONES, ZeroBytes(k)), 0)
    ensures ZeroBytes(0) == []
  {
    assert ZeroBytes(k + 1) == ZeroBytes(k) + [0];
    RegisterMore(ALL_ONES, ZeroBytes(k), 0);
  }

  /** So up to four zero bytes in front are always noticed. */
  lemma FewZerosInFront(k: nat, s: Bytes)
    requires 1 <= k <= 4
    ensures Crc(ZeroBytes(k) + s) != Crc(s)
  {
    hide Register, Crc, ZeroBytes;
    ZerosInFront(k, s);
    FourZeros();
  }

  function LowByte(w: bv32): bv8 {
    (w & 0xff) as bv8
  }

  function OtherBytes(w: bv32): bv32 {
    w >> 8
  }

  /** The four bytes of a CRC, lowest first. */
  function LowestFirst(w: bv32): Bytes {
    [LowByte(w), LowByte(OtherBytes(w)), LowByte(OtherBytes(OtherBytes(w))),
     LowByte(OtherBytes(OtherBytes(OtherBytes(w))))]
  }

  /** When the register holds a sum with w, the low byte of w cancels and the others move on. */
  lemma StepCancels(w: bv32, r: bv32)
    ensures TableStep(Xor(w, r), LowByte(w)) == Xor(OtherBytes(w), TableStep(r, 0))
  {
    LowByteCancels(w, r);
    ShiftedSum(w, r, Lookup((r & 0xff) as bv8));
    hide Lookup, Xor;
  }

  lemma LowByteCancels(w: bv32, r: bv32)
    ensures ((Xor(w, r) & 0xff) as bv8) ^ LowByte(w) == (r & 0xff) as bv8
    ensures ((r & 0xff) as bv8) ^ 0 == (r & 0xff) as bv8
  {
  }

  lemma ShiftedSum(w: bv32, r: bv32, l: bv32)
    ensures Xor(Xor(w, r) >> 8, l) == Xor(OtherBytes(w), Xor(r >> 8, l))
  {
  }

  lemma AllShifted(w: bv32, r: bv32)
    ensures Xor(OtherBytes(OtherBytes(OtherBytes(OtherBytes(w)))), r) == r
  {
  }

  /** The register after four bytes. */
  lemma FourBytes(c: bv32, b: Bytes)
    requires |b| == 4
    ensures Register(c, b) == TableStep(TableStep(TableStep(TableStep(c, b[0]), b[1]), b[2]), b[3])
  {
    hide TableStep, Register;
    RegisterNothing(c);
    RegisterMore(c, [], b[0]);
    RegisterMore(c, b[..1], b[1]);
    RegisterMore(c, b[..2], b[2]);
    RegisterMore(c, b[..3], b[3]);
    assert b[..1] == [] + [b[0]] && b[..2] == b[..1] + [b[1]] && b[..3] == b[..2] + [b[2]] && b == b[..3] + [b[3]];
  }

  /**
   * A message followed by the four bytes of its own CRC leaves one fixed value in the
   * register, whatever the message.
   */
  lemma Residue(s: Bytes)
    ensures Register(ALL_ONES, s + LowestFirst(Crc(s))) == 0xDEBB20E3
  {
    hide TableStep, Register, Xor, LowByte, OtherBytes;
    var w := Crc(s);
    RegisterAppend(ALL_ONES, s, LowestFirst(w));
    TwiceComplement(Register(ALL_ONES, s));
    FourBytes(Register(ALL_ONES, s), LowestFirst(w));
    StepCancels(w, 0xFFFFFFFF);
    Zero1();
    StepCancels(OtherBytes(w), 0x2DFD1072);
    Zero2();
    StepCancels(OtherBytes(OtherBytes(w)), 0xBE26ED00);
    Zero3();
    StepCancels(OtherBytes(OtherBytes(OtherBytes(w))), 0x00BE26ED);
    Zero4();
    AllShifted(w, 0xDEBB20E3);
  }

  lemma TwiceComplement(c: bv32)
    ensures Xor(Xor(c, ALL_ONES), 0xFFFFFFFF) == c
  {
  }
}

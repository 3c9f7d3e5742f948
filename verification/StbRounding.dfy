// The integer half of float printing (rizzos/lib/stb_sprintf.h:1765-1844): rounding in
// decimal, dropping trailing groups of zeros, and the digits.
module StbRoundings {
  import opened Bits
  import opened Numerals
  import opened StbDecimals

  const S63: nat := 0x8000_0000_0000_0000

  const U32: nat := 0x1_0000_0000

  /** stbsp__powten. */
  function PowTen(): (t: seq<nat>)
    ensures |t| == 20
  {
    [1, 10, 100, 1000, 10000, 100000, 1000000, 10000000, 100000000, 1000000000,
     10000000000, 100000000000, 1000000000000, 10000000000000, 100000000000000,
     1000000000000000, 10000000000000000, 100000000000000000, 1000000000000000000,
     10000000000000000000]
  }

  lemma {:induction false} PowTenMeaning(i: nat)
    requires i < 20
    ensures PowTen()[i] == Power(10, i)
    ensures 0 < i ==> PowTen()[i - 1] * 10 == PowTen()[i]
  {
    if i > 0 {
      PowTenMeaning(i - 1);
    }
  }

  // ----- widths

  /** The number has exactly w digits; zero has none. */
  predicate HasWidth(n: nat, w: nat) {
    n < Power(10, w) && (w > 0 ==> n >= Power(10, w - 1))
  }

  lemma {:induction false} PowerGrows(a: nat, b: nat)
    requires a <= b
    ensures Power(10, a) <= Power(10, b)
    decreases b
  {
    if a < b {
      PowerGrows(a, b - 1);
    }
  }

  lemma WidthUnique(n: nat, v: nat, w: nat)
    requires HasWidth(n, v) && HasWidth(n, w)
    ensures v == w
  {
    if v < w {
      PowerGrows(v, w - 1);
    } else if w < v {
      PowerGrows(w, v - 1);
    }
  }

  lemma {:induction false} DigitsWidth(n: nat)
    ensures HasWidth(n, |DigitsOf(n, 10)|)
  {
    if n > 0 {
      DigitsWidth(n / 10);
      var w := |DigitsOf(n / 10, 10)|;
      assert n == 10 * (n / 10) + n % 10;
      assert Power(10, w + 1) == Power(10, w) * 10;
      if w > 0 {
        assert Power(10, w) == Power(10, w - 1) * 10;
      } else {
        assert Power(10, 0) == 1;
      }
    }
  }

  lemma {:induction false} WidthOfShift(m: nat, w: nat, k: nat)
    requires HasWidth(m, w) && m > 0
    ensures HasWidth(m * Power(10, k), w + k) && m * Power(10, k) > 0
  {
    if k == 0 {
      assert m * 1 == m;
    } else {
      WidthOfShift(m, w, k - 1);
      var n := m * Power(10, k - 1);
      assert m * (Power(10, k - 1) * 10) == n * 10 by { MulRotate2(m, Power(10, k - 1)); }
      assert w > 0 by { assert Power(10, 0) == 1; }
      assert Power(10, w + k) == Power(10, w + k - 1) * 10;
      assert Power(10, w + k - 1) == Power(10, w + k - 2) * 10;
    }
  }

  // ----- rounding

  /**
   * How many leading digits are asked for.  With the top bit set the low 27 bits count
   * from the first digit, otherwise the count starts at the decimal point.
   */
  function KeptDigits(tens: int, fracDigits: nat): (kept: nat)
    requires fracDigits < U32
    ensures kept < U32
  {
    if fracDigits >= 0x8000_0000 then fracDigits % 0x800_0000 + 1 else (tens + fracDigits) % U32
  }

  /** q is x / r rounded to the nearest, halves upwards. */
  predicate IsRounded(x: nat, r: nat, q: nat) {
    2 * q * r <= 2 * x + r && 2 * x < 2 * q * r + r
  }

  /** The digits that are kept when w are there. */
  function Kept(kept: nat, w: nat): nat {
    if kept < w then kept else w
  }

  lemma HalfUp(x: nat, h: nat, q: nat)
    requires h > 0 && q == (x + h) / (2 * h)
    ensures IsRounded(x, 2 * h, q)
  {
    var r := 2 * h;
    assert x + h == r * q + (x + h) % r;
    assert 2 * q * r == 2 * (r * q) by { MulSwap(r, q); }
  }

  lemma MulSwap(r: nat, q: nat)
    ensures 2 * q * r == 2 * (r * q)
  {
  }

  lemma EvenPower(e: nat)
    requires e > 0
    ensures Power(10, e) % 2 == 0 && Power(10, e) >= 10
  {
    assert Power(10, e) == Power(10, e - 1) * 10;
  }

  /** Powers of ten multiply. */
  lemma {:induction false} PowerSum(a: nat, b: nat)
    ensures Power(10, a + b) == Power(10, a) * Power(10, b)
    decreases b
  {
    if b == 0 {
      assert Power(10, a) * 1 == Power(10, a);
    } else {
      PowerSum(a, b - 1);
      MulRotate2(Power(10, a), Power(10, b - 1));
    }
  }

  lemma QuotientBelow(x: nat, r: nat, k: nat)
    requires r > 0
    ensures x >= k * r <==> x / r >= k
  {
    assert x == r * (x / r) + x % r;
    if x / r >= k {
      MulMonotone(r, k, x / r);
    } else {
      MulMonotone(r, x / r + 1, k);
      assert (x / r + 1) * r == r * (x / r) + r;
    }
  }

  /** Rounding keeps the width, except that nine upon nine carries into a new digit. */
  lemma RoundedWidth(x: nat, w: nat, kept: nat, q: nat)
    requires kept < w && x < Power(10, w) && (w > 1 ==> x >= Power(10, w - 1))
    requires q == (x + Power(10, w - kept) / 2) / Power(10, w - kept)
    ensures IsRounded(x, Power(10, w - kept), q)
    ensures x + Power(10, w - kept) / 2 >= Power(10, w) <==> q == Power(10, kept)
    ensures q == Power(10, kept) ==> HasWidth(q, kept + 1)
    ensures q > 0 && q != Power(10, kept) ==> HasWidth(q, kept)
    ensures kept > 0 ==> q > 0
  {
    hide Power, IsRounded;
    var r := Power(10, w - kept);
    EvenPower(w - kept);
    HalfUp(x, r / 2, q);
    PowerSum(kept, w - kept);
    var sum := x + r / 2;
    QuotientBelow(sum, r, Power(10, kept));
    OneMore(Power(10, kept), r);
    QuotientBelow(sum, r, Power(10, kept) + 1);
    PowerStep(kept);
    if kept > 0 {
      PowerSum(kept - 1, w - kept);
      QuotientBelow(sum, r, Power(10, kept - 1));
    } else {
      PowerZero();
    }
  }

  lemma OneMore(k: nat, r: nat)
    ensures (k + 1) * r == k * r + r
  {
  }

  lemma PowerStep(k: nat)
    ensures Power(10, k + 1) == Power(10, k) * 10
  {
  }

  lemma PowerZero()
    ensures Power(10, 0) == 1
  {
  }

  /** The number of significant digits. */
  function Width(n: nat): nat {
    |DigitsOf(n, 10)|
  }

  /**
   * What the rounding leaves: bits rounded to a whole number q of units, the digits
   * counted from the same place as before or, after a carry, from one place further left.
   */
  ghost predicate RoundedTo(bits: nat, tens: int, kept: nat, q: nat, pos: int) {
    && IsRounded(bits, Power(10, Width(bits) - Kept(kept, Width(bits))), q)
    && (pos == tens || pos == tens + 1)
    && (pos == tens + 1 ==> q == Power(10, Kept(kept, Width(bits))))
    && (q > 0 ==> Width(q) == Kept(kept, Width(bits)) + pos - tens)
  }

  lemma NotRounded(bits: nat, tens: int, kept: nat)
    requires kept >= Width(bits)
    ensures RoundedTo(bits, tens, kept, bits, tens)
  {
    hide DigitsOf;
    PowerZero();
  }

  lemma WidthIs(n: nat, w: nat)
    requires n > 0 && HasWidth(n, w)
    ensures Width(n) == w
  {
    DigitsWidth(n);
    WidthUnique(n, w, Width(n));
  }

  lemma WidthOfZero()
    ensures Width(0) == 0
  {
  }

  /** The width the code counts to, which is 1 for zero. */
  lemma CountedWidth(bits: nat, dg: nat)
    requires 0 < dg && bits < Power(10, dg) && (dg > 1 ==> bits >= Power(10, dg - 1))
    ensures bits > 0 ==> Width(bits) == dg
    ensures bits == 0 ==> Width(bits) == 0
  {
    hide DigitsOf;
    PowerZero();
    if bits > 0 {
      WidthIs(bits, dg);
    } else {
      WidthOfZero();
    }
  }

  /** The sum before the division, in 64 bits. */
  function AddHalf(bits: nat, r: nat): nat {
    Wrap(bits + r / 2)
  }

  function PlusHalf(bits: nat, r: nat): nat {
    bits + r / 2
  }

  /** The unsigned division. */
  function Over(x: nat, r: nat): nat
    requires r > 0
  {
    x / r
  }

  lemma RoundStep(bits: nat, tens: int, kept: nat, dg: nat, q: nat)
    requires kept < dg && bits < Power(10, dg) && (dg > 1 ==> bits >= Power(10, dg - 1))
    requires q == Over(PlusHalf(bits, Power(10, dg - kept)), Power(10, dg - kept))
    ensures RoundedTo(bits, tens, kept, q, if PlusHalf(bits, Power(10, dg - kept)) >= Power(10, dg) then tens + 1 else tens)
  {
    hide Width, HasWidth, IsRounded;
    CountedWidth(bits, dg);
    RoundedWidth(bits, dg, kept, q);
    if bits == 0 {
      HalfOfNothing(Power(10, dg - kept), q);
      PowerZero();
      PowerPositive(dg, kept);
      NotRounded(0, tens, kept);
    } else if q > 0 {
      WidthIs(q, if q == Power(10, kept) then kept + 1 else kept);
    }
  }

  lemma HalfOfNothing(r: nat, q: nat)
    requires r > 0 && q == (0 + r / 2) / r
    ensures q == 0
  {
  }

  lemma PowerPositive(dg: nat, kept: nat)
    requires kept < dg
    ensures 0 + Power(10, dg - kept) / 2 < Power(10, dg)
  {
    PowerGrows(dg - kept, dg);
    PowerZero();
  }

  /**
   * The loop that counts the digits, with a head start at ten digits.  Its exit for
   * twenty digits is never taken below 2^63.
   */
  method CountDigits(bits: nat) returns (dg: nat)
    requires bits < S63
    ensures 1 <= dg <= 19 && bits < Power(10, dg) && (dg > 1 ==> bits >= Power(10, dg - 1))
  {
    hide Power, PowTen;
    dg := 1;
    PowTenMeaning(9);
    if bits >= PowTen()[9] {
      dg := 10;
    }
    while bits >= PowTen()[dg]
      invariant 1 <= dg <= 19
      invariant dg > 1 ==> bits >= Power(10, dg - 1)
      decreases 20 - dg
    {
      PowTenMeaning(dg);
      TopPower(bits, dg);
      dg := dg + 1;
    }
    PowTenMeaning(dg);
  }

  /**
   * The rounding stage.  The sum is taken in 64 bits, where it fits; the guard against
   * e >= 24 is never taken, as e is at most the number of digits.
   */
  method Round(bits0: nat, tens0: int, kept: nat) returns (bits: nat, tens: int)
    requires bits0 < S63
    ensures RoundedTo(bits0, tens0, kept, bits, tens) && bits < S63
  {
    hide Power, PowTen, RoundedTo, Width, AddHalf, Over;
    bits, tens := bits0, tens0;
    if kept < 24 {
      var dg := CountDigits(bits);
      if kept < dg {
        var e := dg - kept;
        var r := PowTen()[e];
        RoundAt(bits, tens, kept, dg);
        bits := AddHalf(bits, r);
        if bits >= PowTen()[dg] {
          tens := tens + 1;
        }
        bits := Over(bits, r);
      } else {
        CountedWidth(bits0, dg);
        NotRounded(bits0, tens0, kept);
      }
    } else {
      WidthLimit(bits0);
      NotRounded(bits0, tens0, kept);
    }
  }

  lemma TopPower(bits: nat, dg: nat)
    requires bits < S63 && dg < 20 && bits >= PowTen()[dg]
    ensures dg < 19
  {
  }

  lemma SumFits(bits: nat, e: nat)
    requires bits < S63 && 0 < e < 20
    ensures PowTen()[e] > 0 && bits + PowTen()[e] / 2 < U64_LIMIT
    ensures (bits + PowTen()[e] / 2) / PowTen()[e] < S63
  {
    var r := PowTen()[e];
    assert 10 <= r <= PowTen()[19] by { TableGrows(e); }
    hide PowTen;
    QuotientBelow(bits + r / 2, r, S63);
    MulMonotone(S63, 2, r);
  }

  lemma AddHalfExact(bits: nat, e: nat)
    requires bits < S63 && 0 < e < 20
    ensures PowTen()[e] > 0 && AddHalf(bits, PowTen()[e]) == PlusHalf(bits, PowTen()[e])
    ensures Over(PlusHalf(bits, PowTen()[e]), PowTen()[e]) < S63
  {
    hide PowTen, Wrap;
    SumFits(bits, e);
    WrapSmall(bits + PowTen()[e] / 2);
  }

  lemma RoundAt(bits: nat, tens: int, kept: nat, dg: nat)
    requires bits < S63 && kept < dg < 20 && bits < Power(10, dg) && (dg > 1 ==> bits >= Power(10, dg - 1))
    ensures PowTen()[dg - kept] > 0 && Over(AddHalf(bits, PowTen()[dg - kept]), PowTen()[dg - kept]) < S63
    ensures RoundedTo(bits, tens, kept, Over(AddHalf(bits, PowTen()[dg - kept]), PowTen()[dg - kept]),
                      if AddHalf(bits, PowTen()[dg - kept]) >= PowTen()[dg] then tens + 1 else tens)
  {
    hide Power, PowTen, RoundedTo, AddHalf, PlusHalf, Over;
    PowTenMeaning(dg - kept);
    PowTenMeaning(dg);
    AddHalfExact(bits, dg - kept);
    RoundStep(bits, tens, kept, dg, Over(PlusHalf(bits, Power(10, dg - kept)), Power(10, dg - kept)));
  }

  lemma WrapSmall(x: nat)
    requires x < U64_LIMIT
    ensures Wrap(x) == x
  {
  }

  lemma {:induction false} TableGrows(e: nat)
    requires 0 < e < 20
    ensures 10 <= PowTen()[e] <= PowTen()[19] <= 10000000000000000000
    decreases 20 - e
  {
    hide PowTen, Power;
    PowTenMeaning(e);
    PowTenMeaning(19);
    PowerGrows(1, e);
    PowerGrows(e, 19);
    assert Power(10, 1) == 10 && PowTen()[19] == 10000000000000000000 by { TableEnds(); }
  }

  lemma TableEnds()
    ensures Power(10, 1) == 10 && PowTen()[19] == 10000000000000000000
  {
    assert Power(10, 0) == 1;
  }

  lemma WidthLimit(bits: nat)
    requires bits < S63
    ensures Width(bits) <= 24
  {
    hide DigitsOf, PowTen;
    DigitsWidth(bits);
    if Width(bits) > 19 {
      PowTenMeaning(19);
      PowerGrows(19, Width(bits) - 1);
      assert PowTen()[19] > S63 by { Top(); }
    }
  }

  lemma Top()
    ensures PowTen()[19] > S63
  {
  }

  /** There is only one such q. */
  lemma RoundedOnce(x: nat, r: nat, q: nat, q': nat)
    requires r > 0 && IsRounded(x, r, q) && IsRounded(x, r, q')
    ensures q == q'
  {
    if q < q' {
      MulMonotone(2 * r, q + 1, q');
    } else if q' < q {
      MulMonotone(2 * r, q' + 1, q);
    }
  }

  /**
   * A count from the decimal point rounds to that many places behind it, as long as the
   * number reaches there; when it does not, nothing is rounded.
   */
  lemma PlacesMeaning(tens: int, places: nat)
    requires places < 0x8000_0000 && -0x8000_0000 <= tens < 0x8000_0000
    ensures tens + places >= 0 ==> tens - KeptDigits(tens, places) == -(places as int)
    ensures tens + places < 0 ==> KeptDigits(tens, places) >= 24
  {
  }

  /** With the top bit set n asks for n + 1 significant digits, wherever the point is. */
  lemma SignificantMeaning(tens: int, n: nat)
    requires n < 0x800_0000
    ensures KeptDigits(tens, 0x8000_0000 + n) == n + 1
  {
  }

  /** 1245 to three digits is 1250, upwards; 9996 is 1000 with one place more; 1244 is 1240. */
  lemma ThreeRoundings(q: nat, pos: int)
    ensures RoundedTo(1245, 4, 3, q, pos) ==> q == 125 && pos == 4
    ensures RoundedTo(1244, 4, 3, q, pos) ==> q == 124 && pos == 4
    ensures RoundedTo(9996, 4, 3, q, pos) ==> q == 1000 && pos == 5
  {
    hide DigitsOf;
    PowersOfTen();
    WidthIs(1245, 4);
    WidthIs(1244, 4);
    WidthIs(9996, 4);
    WidthIs(125, 3);
    WidthIs(124, 3);
    WidthIs(1000, 4);
  }

  lemma PowersOfTen()
    ensures Power(10, 1) == 10 && Power(10, 2) == 100 && Power(10, 3) == 1000 && Power(10, 4) == 10000
  {
    assert Power(10, 1) == 10;
    assert Power(10, 2) == 100;
    assert Power(10, 3) == 1000;
  }

  // ----- trailing groups of zeros

  lemma {:induction false} DropGroup(q: nat, n: nat, z: nat)
    requires q == n * Power(10, 3 * z) && n % 1000 == 0
    ensures q == n / 1000 * Power(10, 3 * (z + 1))
  {
    var m := n / 1000;
    var p := Power(10, 3 * z);
    assert n == m * 1000;
    PowerSum(3 * z, 3);
    assert Power(10, 3) == 1000 by { assert Power(10, 1) == 10; }
    Regroup(m, p);
  }

  lemma Regroup(m: nat, p: nat)
    ensures m * 1000 * p == m * (p * 1000)
  {
  }

  /** The stage that drops trailing groups of three zeros, first in 64 bits, then in 32. */
  method DropZeroGroups(bits0: nat) returns (bits: nat, ghost z: nat)
    ensures bits0 == bits * Power(10, 3 * z)
    ensures bits0 > 0 ==> bits % 1000 != 0
    ensures bits <= bits0
  {
    hide Power;
    bits, z := bits0, 0;
    PowerZero();
    if bits != 0 {
      while bits > 0xffff_ffff
        invariant 0 < bits <= bits0 && bits0 == bits * Power(10, 3 * z)
        decreases bits
      {
        if bits % 1000 != 0 {
          return;
        }
        DropGroup(bits0, bits, z);
        bits, z := bits / 1000, z + 1;
      }
      var n := bits % U32;
      while n % 1000 == 0
        invariant 0 < n <= bits0 && bits0 == n * Power(10, 3 * z)
        decreases n
      {
        DropGroup(bits0, n, z);
        n, z := n / 1000, z + 1;
      }
      bits := n;
    }
  }

  // ----- the digits

  /** The digit stage: the numeral ends at place 64, and nothing is written for zero. */
  method PutBits(buffer: array<nat>, bits0: nat) returns (out: nat, e: nat)
    requires buffer.Length >= 64 && bits0 < S63
    modifies buffer
    ensures out + e == 64
    ensures bits0 == 0 ==> e == 0
    ensures bits0 > 0 ==> buffer[out..64] == Decimal(bits0)
  {
    hide Written, Chunk, Split, Since, Decimal;
    out, e := 64, 0;
    var bits := bits0;
    ghost var x: Digits := [];
    ghost var j := 0;
    SplitStart(bits0);
    NothingWritten(buffer[..], 64, false);
    while true
      invariant j <= 2 && |x| == 8 * j && out == 64 - 8 * j && out + e == 64
      invariant (j == 0 ==> bits == bits0 < U64_LIMIT) && (j == 1 ==> bits < 200000000000) && (j == 2 ==> bits < 2000)
      invariant j > 0 ==> bits > 0
      invariant Split(bits0, bits, x) && Written(buffer[..], 64, out, x, false, false)
      decreases bits
    {
      ChunkStart(bits0, bits, x);
      ThreeChunks(bits, j);
      var o := out - 8;
      var n;
      if bits >= CHUNK {
        n := bits % CHUNK;
        bits := bits / CHUNK;
      } else {
        n := bits;
        bits := 0;
      }
      ghost var i := 0;
      if n != 0 {
        var s;
        s, i, x := PutPairs(buffer, 64, out, n, bits0, bits, x);
        e := e + (out - s);
        out := s;
      }
      if bits == 0 {
        LastChunkDone(bits0, i, x);
        WrittenFits(buffer[..], 64, out, x, false, false);
        Finished(buffer[..], 64, out, x, false, bits0);
        if e != 0 && buffer[out] == ZERO_CHAR {
          out := out + 1;
          e := e - 1;
        }
        PlainText(bits0);
        break;
      }
      var l;
      e := e + (out - o);
      out, l, x := FillZeros(buffer, 64, out, o, false, 0, bits0, bits, i, x);
      ChunkDone(bits0, bits, x);
      j := j + 1;
    }
  }

  lemma PlainText(value: nat)
    ensures NumberText(value, false) == Decimal(value)
  {
  }

  // ----- the whole stage

  /** n times ten to the k. */
  ghost function Scaled(n: nat, k: int): real
    decreases if k >= 0 then k else -k
  {
    if k == 0 then n as real
    else if k > 0 then Scaled(n, k - 1) * 10.0
    else Scaled(n, k + 1) / 10.0
  }

  lemma ScaledUp(n: nat, k: int)
    ensures Scaled(n, k + 1) == Scaled(n, k) * 10.0
  {
  }

  lemma {:induction false} ScaledTen(n: nat, k: int)
    ensures Scaled(n * 10, k) == Scaled(n, k + 1)
    decreases if k >= 0 then k else -k
  {
    if k > 0 {
      ScaledTen(n, k - 1);
    } else if k < 0 {
      ScaledTen(n, k + 1);
      ScaledUp(n, k + 1);
      ScaledUp(n * 10, k);
      ScaledUp(n, k);
    } else {
      ScaledUp(n, 0);
    }
  }

  lemma {:induction false} ScaledShift(m: nat, k: nat, u: int)
    ensures Scaled(m * Power(10, k), u) == Scaled(m, u + k)
    decreases k
  {
    hide Scaled;
    if k == 0 {
      PowerZero();
      assert m * 1 == m;
    } else {
      MulRotate2(m, Power(10, k - 1));
      ScaledTen(m * Power(10, k - 1), u);
      ScaledShift(m, k - 1, u + 1);
    }
  }

  lemma DecimalWidth(m: nat)
    requires m > 0
    ensures |Decimal(m)| == Width(m)
  {
    WiderBase(DigitsOf(m, 10));
  }

  lemma GroupsWidth(q: nat, m: nat, z: nat)
    requires q == m * Power(10, 3 * z) && m > 0
    ensures q > 0 && Width(q) == Width(m) + 3 * z
  {
    hide DigitsOf, HasWidth;
    DigitsWidth(m);
    WidthOfShift(m, Width(m), 3 * z);
    WidthIs(q, Width(m) + 3 * z);
  }

  lemma NoneOf(z: nat)
    ensures 0 * Power(10, 3 * z) == 0
  {
  }

  /**
   * From bits and tens to the digits D and the decimal position: 0.D times ten to the
   * position is the input, 0.bits times ten to tens, rounded half up to the digits asked for.
   */
  method RoundToText(buffer: array<nat>, bits0: nat, tens0: int, fracDigits: nat)
      returns (start: nat, len: nat, decimalPos: int, ghost q: nat, ghost m: nat)
    requires buffer.Length >= 64 && bits0 < S63 && fracDigits < U32
    modifies buffer
    ensures start + len == 64 && RoundedTo(bits0, tens0, KeptDigits(tens0, fracDigits), q, decimalPos)
    ensures q == 0 ==> len == 0
    ensures q > 0 ==> m % 1000 != 0 && buffer[start..64] == Decimal(m)
    ensures q > 0 ==> Scaled(m, decimalPos - len) == Scaled(q, tens0 - Kept(KeptDigits(tens0, fracDigits), Width(bits0)))
  {
    hide *;
    var kept := KeptDigits(tens0, fracDigits);
    var bits, tens := Round(bits0, tens0, kept);
    q := bits;
    ghost var z;
    bits, z := DropZeroGroups(bits);
    m := bits;
    NoneOf(z);
    start, len := PutBits(buffer, bits);
    decimalPos := tens;
    if m > 0 {
      GroupsWidth(q, m, z);
      DecimalWidth(m);
      WidthOfRounded(bits0, tens0, kept, q, tens);
      ScaledShift(m, 3 * z, tens0 - Kept(kept, Width(bits0)));
    }
  }

  lemma WidthOfRounded(bits: nat, tens: int, kept: nat, q: nat, pos: int)
    requires RoundedTo(bits, tens, kept, q, pos) && q > 0
    ensures Width(q) == Kept(kept, Width(bits)) + pos - tens
  {
  }
}

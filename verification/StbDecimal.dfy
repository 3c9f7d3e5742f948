// Decimal conversion of integers (rizzos/lib/stb_sprintf.h:1087-1141): eight digits
// at a time, two at a time from a table, with optional commas.
module StbDecimals {
  import opened Bits
  import opened Numerals
  import opened StbWords

  const CHUNK: nat := 100000000

  // ----- the table of digit pairs

  /** stbsp__digitpair, in rows of ten pairs. */
  function PairRow(tens: nat): string
    requires tens < 10
  {
    if tens == 0 then "00010203040506070809"
    else if tens == 1 then "10111213141516171819"
    else if tens == 2 then "20212223242526272829"
    else if tens == 3 then "30313233343536373839"
    else if tens == 4 then "40414243444546474849"
    else if tens == 5 then "50515253545556575859"
    else if tens == 6 then "60616263646566676869"
    else if tens == 7 then "70717273747576777879"
    else if tens == 8 then "80818283848586878889"
    else "90919293949596979899"
  }

  /** A row of the table: the tens digit before each of the digits 0 to 9. */
  function Spelled(t: char): string {
    [t, '0', t, '1', t, '2', t, '3', t, '4', t, '5', t, '6', t, '7', t, '8', t, '9']
  }

  lemma Row0() ensures "00010203040506070809" == Spelled('0') {}
  lemma Row1() ensures "10111213141516171819" == Spelled('1') {}
  lemma Row2() ensures "20212223242526272829" == Spelled('2') {}
  lemma Row3() ensures "30313233343536373839" == Spelled('3') {}
  lemma Row4() ensures "40414243444546474849" == Spelled('4') {}
  lemma Row5() ensures "50515253545556575859" == Spelled('5') {}
  lemma Row6() ensures "60616263646566676869" == Spelled('6') {}
  lemma Row7() ensures "70717273747576777879" == Spelled('7') {}
  lemma Row8() ensures "80818283848586878889" == Spelled('8') {}
  lemma Row9() ensures "90919293949596979899" == Spelled('9') {}

  /** The character of a decimal digit. */
  function TensChar(d: nat): (c: char)
    requires d < 10
    ensures c as int == DigitChar(d)
  {
    ['0', '1', '2', '3', '4', '5', '6', '7', '8', '9'][d]
  }

  lemma PairRowSpelled(tens: nat)
    requires tens < 10
    ensures PairRow(tens) == Spelled(TensChar(tens))
  {
    hide Spelled;
    if tens == 0 { Row0(); }
    if tens == 1 { Row1(); }
    if tens == 2 { Row2(); }
    if tens == 3 { Row3(); }
    if tens == 4 { Row4(); }
    if tens == 5 { Row5(); }
    if tens == 6 { Row6(); }
    if tens == 7 { Row7(); }
    if tens == 8 { Row8(); }
    if tens == 9 { Row9(); }
  }

  lemma SpelledPair(t: char, k: nat)
    requires k < 10
    ensures Spelled(t)[2 * k] == t && Spelled(t)[2 * k + 1] == TensChar(k)
  {
    if k < 3 {
    } else if k < 6 {
    } else {
    }
  }

  /** stbsp__digitpair.pair[2 * n] and pair[2 * n + 1] are the two digits of n. */
  lemma PairMeaning(n: nat)
    requires n < 100
    ensures |PairRow(n / 10)| == 20
    ensures PairRow(n / 10)[2 * (n % 10)] as int == DigitChar(n / 10)
    ensures PairRow(n / 10)[2 * (n % 10) + 1] as int == DigitChar(n % 10)
  {
    hide PairRow, Spelled, DigitChar;
    PairRowSpelled(n / 10);
    SpelledPair(TensChar(n / 10), n % 10);
    SpelledLength(TensChar(n / 10));
  }

  lemma SpelledLength(t: char)
    ensures |Spelled(t)| == 20
  {
  }

  // ----- digits in front of a number

  lemma {:induction false} PrependDigit(d: nat, x: Digits)
    ensures ValueOf([d] + x, 10) == d * Power(10, |x|) + ValueOf(x, 10)
  {
    ValueOfJoin([d], x, 10);
    assert [d][..0] == [];
    assert ValueOf([d], 10) == d;
  }

  /** The number is r followed by the digits x. */
  ghost predicate Split(value: nat, r: nat, x: Digits) {
    AreDigits(x, 10) && value == r * Power(10, |x|) + ValueOf(x, 10)
  }

  lemma SplitNext(value: nat, r: nat, x: Digits)
    requires Split(value, r, x)
    ensures Split(value, r / 10, [r % 10] + x)
  {
    PrependDigit(r % 10, x);
    var p := Power(10, |x|);
    assert Power(10, |x| + 1) == p * 10;
    SplitProduct(r, p);
  }

  lemma SplitProduct(r: nat, p: nat)
    ensures r * p == r / 10 * (p * 10) + r % 10 * p
  {
    assert r == 10 * (r / 10) + r % 10;
    Distribute(10, r / 10, r % 10, p);
    assert 10 * (r / 10 * p) == r / 10 * (p * 10) by {
      MulRotate(r / 10, p);
    }
  }

  lemma MulRotate(a: nat, p: nat)
    ensures 10 * (a * p) == a * (p * 10)
  {
  }

  lemma SplitStart(value: nat)
    ensures Split(value, value, [])
  {
  }

  /** When nothing is left in front, digits without a leading zero are the numeral. */
  lemma SplitDone(value: nat, x: Digits)
    requires Split(value, 0, x) && x != [] && x[0] > 0
    ensures AreDigits(x, 16) && Decimal(value) == Chars(x)
  {
    WiderBase(x);
    DigitsOfValue(x, 10);
  }

  // ----- the text in the buffer

  function TextOf(x: Digits, comma: bool): seq<nat>
    requires AreDigits(x, 10)
  {
    WiderBase(x);
    if comma then WithCommas(Chars(x)) else Chars(x)
  }

  /** A further digit goes in front, behind a comma when the digits so far are whole groups. */
  lemma {:induction false} TextGrows(d: nat, x: Digits, comma: bool)
    requires AreDigits(x, 10) && d < 10
    ensures TextOf([d] + x, comma)
      == [DigitChar(d)] + (if comma && |x| > 0 && |x| % 3 == 0 then [COMMA] else []) + TextOf(x, comma)
    decreases |x|
  {
    WiderBase(x);
    WiderBase([d] + x);
    assert Chars([d] + x) == [DigitChar(d)] + Chars(x);
    if comma {
      GroupedGrow(DigitChar(d), Chars(x), 3);
    }
  }

  /** The buffer from s to the end: a comma that waits for its digit, then the text. */
  ghost predicate Written(num: seq<nat>, end: nat, s: nat, x: Digits, comma: bool, pending: bool) {
    && s <= end <= |num| && AreDigits(x, 10)
    && (pending ==> comma && |x| > 0 && |x| % 3 == 0)
    && num[s..end] == (if pending then [COMMA] else []) + TextOf(x, comma)
  }

  /** The counter l: digits since the last comma. */
  function Since(n: nat, pending: bool): nat {
    if pending || n == 0 then 0 else (n - 1) % 3 + 1
  }

  lemma WrittenFits(num: seq<nat>, end: nat, s: nat, x: Digits, comma: bool, pending: bool)
    requires Written(num, end, s, x, comma, pending)
    ensures s <= end <= |num| && AreDigits(x, 10)
  {
  }

  lemma PutDigitWritten(num: seq<nat>, num': seq<nat>, end: nat, s: nat, x: Digits, comma: bool, pending: bool, d: nat)
    requires Written(num, end, s, x, comma, pending) && s > 0 && d < 10
    requires comma && |x| > 0 && |x| % 3 == 0 ==> pending
    requires num' == num[s - 1 := DigitChar(d)]
    ensures Written(num', end, s - 1, [d] + x, comma, false)
  {
    hide TextOf, DigitChar;
    TextGrows(d, x, comma);
    assert num'[s - 1..end] == [DigitChar(d)] + num[s..end];
  }

  lemma PutCommaWritten(num: seq<nat>, num': seq<nat>, end: nat, s: nat, x: Digits)
    requires Written(num, end, s, x, true, false) && s > 0 && |x| > 0 && |x| % 3 == 0
    requires num' == num[s - 1 := COMMA]
    ensures Written(num', end, s - 1, x, true, true)
  {
    hide TextOf;
    assert num'[s - 1..end] == [COMMA] + num[s..end];
  }

  // ----- one chunk

  /** i digits of the current chunk are written; n and the chunks in hi are still to come. */
  ghost predicate Chunk(value: nat, hi: nat, n: nat, i: nat, x: Digits) {
    i <= 8 && n < Power(10, 8 - i) && Split(value, hi * Power(10, 8 - i) + n, x)
  }

  /** The next digit of a chunk is the next digit of the whole number in front. */
  lemma ChunkDigit(hi: nat, n: nat, i: nat)
    requires i < 8 && n < Power(10, 8 - i)
    ensures (hi * Power(10, 8 - i) + n) % 10 == n % 10
    ensures (hi * Power(10, 8 - i) + n) / 10 == hi * Power(10, 7 - i) + n / 10
    ensures n / 10 < Power(10, 7 - i)
  {
    var p := Power(10, 7 - i);
    assert Power(10, 8 - i) == p * 10;
    var v := hi * p + n / 10;
    assert hi * (p * 10) == (hi * p) * 10 by { MulRotate2(hi, p); }
    DivideBack(v, n % 10, 10);
  }

  lemma MulRotate2(a: nat, p: nat)
    ensures a * (p * 10) == a * p * 10
  {
  }

  lemma ChunkStep(value: nat, hi: nat, n: nat, i: nat, x: Digits)
    requires Chunk(value, hi, n, i, x) && i < 8
    ensures Chunk(value, hi, n / 10, i + 1, [n % 10] + x)
  {
    hide Split, Power;
    ChunkDigit(hi, n, i);
    SplitNext(value, hi * Power(10, 8 - i) + n, x);
  }

  lemma ChunkNotDone(value: nat, hi: nat, n: nat, i: nat, x: Digits)
    requires Chunk(value, hi, n, i, x) && n > 0
    ensures i < 8
  {
    assert Power(10, 0) == 1;
  }

  lemma ChunkStart(value: nat, n64: nat, x: Digits)
    requires Split(value, n64, x)
    ensures Chunk(value, n64 / CHUNK, n64 % CHUNK, 0, x)
  {
    hide Split;
    ChunkIsPower();
  }

  lemma ChunkIsPower()
    ensures Power(10, 8) == CHUNK
  {
    assert Power(10, 4) == 10000;
  }

  lemma ChunkDone(value: nat, hi: nat, x: Digits)
    requires Chunk(value, hi, 0, 8, x)
    ensures Split(value, hi, x)
  {
    hide Split;
    assert Power(10, 0) == 1;
  }

  lemma LastChunkDone(value: nat, i: nat, x: Digits)
    requires Chunk(value, 0, 0, i, x)
    ensures Split(value, 0, x)
  {
    hide Split;
    assert 0 * Power(10, 8 - i) == 0;
  }

  lemma PairsOf(n: nat)
    ensures n % 100 / 10 == n / 10 % 10 && n % 100 % 10 == n % 10 && n / 100 == n / 10 / 10
  {
    var a, b, c := n % 10, n / 10 % 10, n / 10 / 10;
    assert n == 100 * c + 10 * b + a;
    assert n / 100 == c && n % 100 == 10 * b + a;
  }

  /** Two digits from the table. */
  method PutPair(num: array<nat>, ghost end: nat, s: nat, n: nat, ghost x: Digits)
    requires s > 1 && Written(num[..], end, s, x, false, false)
    modifies num
    ensures Written(num[..], end, s - 2, [n / 10 % 10] + ([n % 10] + x), false, false)
  {
    hide PairRow, Written, DigitChar;
    PairsOf(n);
    PairMeaning(n % 100);
    WrittenFits(num[..], end, s, x, false, false);
    ghost var a := num[..];
    num[s - 2] := PairRow(n % 100 / 10)[2 * (n % 10)] as int;
    num[s - 1] := PairRow(n % 100 / 10)[2 * (n % 10) + 1] as int;
    ghost var b := a[s - 1 := DigitChar(n % 10)];
    PutDigitWritten(a, b, end, s, x, false, false, n % 10);
    PutDigitWritten(b, num[..], end, s - 1, [n % 10] + x, false, false, n / 10 % 10);
  }

  lemma PairStep(value: nat, hi: nat, n: nat, i: nat, x: Digits)
    requires Chunk(value, hi, n, i, x) && i < 7
    ensures Chunk(value, hi, n / 100, i + 2, [n / 10 % 10] + ([n % 10] + x))
  {
    hide Chunk;
    ChunkStep(value, hi, n, i, x);
    ChunkStep(value, hi, n / 10, i + 1, [n % 10] + x);
    PairsOf(n);
  }

  lemma PairNotZero(n: nat)
    requires n > 0 && n / 100 == 0
    ensures n / 10 % 10 > 0 || n % 10 > 0
  {
    assert n == n / 10 % 10 * 10 + n % 10;
  }

  /** The pairs of one chunk: two digits at a time, at least once. */
  method PutPairs(num: array<nat>, ghost end: nat, s0: nat, n0: nat, ghost value: nat, ghost hi: nat, ghost x0: Digits)
      returns (s: nat, ghost i: nat, ghost x: Digits)
    requires s0 > 8 && Written(num[..], end, s0, x0, false, false) && Chunk(value, hi, n0, 0, x0)
    modifies num
    ensures i <= 8 && s == s0 - i && |x| == |x0| + i
    ensures Written(num[..], end, s, x, false, false) && Chunk(value, hi, 0, i, x)
    ensures n0 > 0 ==> |x| > 1 && (x[0] > 0 || x[1] > 0)
    ensures n0 == 0 ==> x == [0] + ([0] + x0)
  {
    hide Written, Chunk;
    var n := n0;
    s, i, x := s0, 0, x0;
    while true
      invariant i <= 6 && i % 2 == 0 && s == s0 - i && |x| == |x0| + i
      invariant Written(num[..], end, s, x, false, false) && Chunk(value, hi, n, i, x)
      invariant i == 0 ==> n == n0 && x == x0
      invariant i > 0 ==> n > 0 && n0 > 0
      decreases n
    {
      PutPair(num, end, s, n, x);
      PairStep(value, hi, n, i, x);
      if n > 0 && n / 100 == 0 {
        PairNotZero(n);
      }
      x := [n / 10 % 10] + ([n % 10] + x);
      s := s - 2;
      n := n / 100;
      i := i + 2;
      if n == 0 {
        break;
      }
      ChunkNotDone(value, hi, n, i, x);
    }
  }

  /** The counter before the next digit: three says a comma is due. */
  lemma CommaDue(k: nat, pending: bool)
    requires pending ==> k > 0 && k % 3 == 0
    ensures Since(k, pending) == 3 <==> k > 0 && k % 3 == 0 && !pending
    ensures Since(k, pending) <= 3
    ensures Since(k, pending) < 3 ==> Since(k + 1, false) == Since(k, pending) + 1
  {
  }

  /** One turn of either inner loop: a comma when one is due, else the digit d. */
  method PutPlace(num: array<nat>, ghost end: nat, s0: nat, comma: bool, l0: nat, d: nat,
                  ghost x: Digits, ghost pending: bool)
      returns (s: nat, l: nat, wroteComma: bool)
    requires s0 > 0 && d < 10 && Written(num[..], end, s0, x, comma, pending)
    requires comma ==> l0 == Since(|x|, pending)
    modifies num
    ensures s == s0 - 1
    ensures wroteComma <==> comma && |x| > 0 && |x| % 3 == 0 && !pending
    ensures wroteComma ==> Written(num[..], end, s, x, comma, true) && l == Since(|x|, true)
    ensures !wroteComma ==> Written(num[..], end, s, [d] + x, comma, false)
    ensures !wroteComma && comma ==> l == Since(|x| + 1, false)
  {
    hide Since, TextOf;
    WrittenFits(num[..], end, s0, x, comma, pending);
    CommaDue(|x|, pending);
    ghost var before := num[..];
    s, l := s0 - 1, l0;
    if comma && l == 3 {
      l := 0;
      num[s] := COMMA;
      wroteComma := true;
      PutCommaWritten(before, num[..], end, s0, x);
      NoDigitSince(|x|);
    } else {
      if comma {
        l := l + 1;
      }
      num[s] := DigitChar(d);
      wroteComma := false;
      PutDigitWritten(before, num[..], end, s0, x, comma, pending, d);
    }
  }

  lemma NoDigitSince(k: nat)
    ensures Since(k, true) == 0 && Since(0, false) == 0
  {
  }

  /** The digits of one chunk, with the commas that fall between them. */
  method PutDigits(num: array<nat>, ghost end: nat, s0: nat, o0: int, n0: nat, comma: bool, l0: nat,
                   ghost value: nat, ghost hi: nat, ghost i0: nat, ghost x0: Digits)
      returns (s: nat, o: int, l: nat, ghost i: nat, ghost x: Digits)
    requires Written(num[..], end, s0, x0, comma, false) && Chunk(value, hi, n0, i0, x0)
    requires s0 > 8 + 8 && s0 - o0 == 8 - i0
    requires comma ==> l0 == Since(|x0|, false)
    modifies num
    ensures i0 <= i <= 8 && |x| == |x0| + i - i0 && s - o == 8 - i && s0 - 16 <= s <= s0
    ensures Written(num[..], end, s, x, comma, false) && Chunk(value, hi, 0, i, x)
    ensures comma ==> l == Since(|x|, false)
    ensures n0 > 0 ==> |x| > 0 && x[0] > 0
    ensures n0 == 0 ==> x == x0 && i == i0 && s == s0 && num[..] == old(num[..])
  {
    hide Written, Chunk, Since;
    ChunkPlaces(value, hi, n0, i0, x0);
    var n := n0;
    s, o, l, i, x := s0, o0, l0, i0, x0;
    ghost var pending := false;
    while n != 0
      invariant i0 <= i <= 8 && |x| == |x0| + i - i0 && s - o == 8 - i
      invariant s0 - s <= 2 * (i - i0) + (if pending then 1 else 0) && s <= s0
      invariant Written(num[..], end, s, x, comma, pending) && Chunk(value, hi, n, i, x)
      invariant comma ==> l == Since(|x|, pending)
      invariant pending ==> n > 0 && comma
      invariant n0 > 0 ==> n > 0 || (|x| > 0 && x[0] > 0)
      invariant n0 == 0 ==> n == 0 && x == x0 && i == i0 && s == s0 && num[..] == old(num[..])
      decreases n, if pending then 0 else 1
    {
      ChunkNotDone(value, hi, n, i, x);
      var wroteComma: bool;
      s, l, wroteComma := PutPlace(num, end, s, comma, l, n % 10, x, pending);
      if wroteComma {
        pending := true;
        o := o - 1;
      } else {
        ChunkStep(value, hi, n, i, x);
        pending := false;
        x := [n % 10] + x;
        i := i + 1;
        n := n / 10;
      }
    }
  }

  lemma ChunkPlaces(value: nat, hi: nat, n: nat, i: nat, x: Digits)
    requires Chunk(value, hi, n, i, x)
    ensures i <= 8
  {
  }

  /** Zeros until the chunk has its eight digits. */
  method FillZeros(num: array<nat>, ghost end: nat, s0: nat, o0: int, comma: bool, l0: nat,
                   ghost value: nat, ghost hi: nat, ghost i0: nat, ghost x0: Digits)
      returns (s: nat, l: nat, ghost x: Digits)
    requires Written(num[..], end, s0, x0, comma, false) && Chunk(value, hi, 0, i0, x0)
    requires s0 > 8 + 8 && s0 - o0 == 8 - i0
    requires comma ==> l0 == Since(|x0|, false)
    modifies num
    ensures |x| == |x0| + 8 - i0 && s0 - 16 <= s <= s0
    ensures Written(num[..], end, s, x, comma, false) && Chunk(value, hi, 0, 8, x)
    ensures comma ==> l == Since(|x|, false)
    ensures !comma ==> s == o0
  {
    hide Written, Chunk, Since;
    ChunkPlaces(value, hi, 0, i0, x0);
    var o := o0;
    s, l, x := s0, l0, x0;
    ghost var i := i0;
    ghost var pending := false;
    while s != o
      invariant i0 <= i <= 8 && |x| == |x0| + i - i0 && s - o == 8 - i
      invariant s0 - s <= 2 * (i - i0) + (if pending then 1 else 0) && s <= s0
      invariant Written(num[..], end, s, x, comma, pending) && Chunk(value, hi, 0, i, x)
      invariant comma ==> l == Since(|x|, pending)
      invariant pending ==> i < 8 && comma
      invariant !comma ==> o == o0
      decreases s - o, if pending then 0 else 1
    {
      var wroteComma: bool;
      s, l, wroteComma := PutPlace(num, end, s, comma, l, 0, x, pending);
      if wroteComma {
        pending := true;
        o := o - 1;
      } else {
        ChunkStep(value, hi, 0, i, x);
        pending := false;
        x := [0] + x;
        i := i + 1;
      }
    }
  }

  // ----- the whole number

  /** The numeral a conversion asks for. */
  function NumberText(value: nat, comma: bool): (t: seq<nat>)
    ensures |t| > 0
  {
    if comma then WithCommas(Decimal(value)) else Decimal(value)
  }

  lemma {:induction false} DecimalHasNoComma(value: nat)
    ensures COMMA !in Decimal(value)
  {
    WiderBase(DigitsOf(value, 10));
  }

  /** The text is the numeral once the commas are deleted, and those stand every fourth place from the right. */
  lemma NumberTextMeaning(value: nat, comma: bool, j: nat)
    requires j < |NumberText(value, comma)|
    ensures WithoutCommas(NumberText(value, comma)) == Decimal(value)
    ensures NumberText(value, comma)[|NumberText(value, comma)| - 1 - j] == COMMA <==> comma && j % 4 == 3
  {
    hide Grouped, WithoutCommas, Decimal;
    DecimalHasNoComma(value);
    CommasDeleted(Decimal(value), 3);
    NothingToDelete(Decimal(value));
    if comma {
      CommaPlaces(Decimal(value), 3, j);
    }
  }

  lemma LeadingDigit(num: seq<nat>, end: nat, s: nat, x: Digits, comma: bool)
    requires Written(num, end, s, x, comma, false)
    ensures x == [] ==> s == end
    ensures x != [] ==> s < end && num[s] == DigitChar(x[0])
  {
    hide Grouped;
    WiderBase(x);
    if x == [] {
      FewGrouped(Chars(x), 3);
    } else {
      TextGrows(x[0], x[1..], comma);
      assert x == [x[0]] + x[1..];
      assert num[s..end][0] == num[s];
    }
  }

  lemma DropLeading(num: seq<nat>, end: nat, s: nat, x: Digits)
    requires Written(num, end, s, x, false, false) && |x| > 0
    ensures Written(num, end, s + 1, x[1..], false, false)
  {
    WiderBase(x);
    WiderBase(x[1..]);
    assert num[s + 1..end] == num[s..end][1..];
  }

  lemma ZeroInFront(value: nat, r: nat, x: Digits)
    requires Split(value, r, x) && |x| > 0 && x[0] == 0
    ensures Split(value, r, x[1..]) || r > 0
  {
    assert x == [x[0]] + x[1..];
    PrependDigit(x[0], x[1..]);
    if r == 0 {
      ZeroTimes(Power(10, |x|));
      ZeroTimes(Power(10, |x| - 1));
    }
  }

  lemma ZeroTimes(p: nat)
    ensures 0 * p == 0
  {
  }

  /** Digits without a leading zero that split off nothing are the numeral in the buffer. */
  lemma WrittenDone(num: seq<nat>, end: nat, s: nat, x: Digits, comma: bool, value: nat)
    requires Written(num, end, s, x, comma, false) && Split(value, 0, x)
    requires x != [] ==> x[0] > 0
    ensures value > 0 ==> num[s..end] == NumberText(value, comma)
    ensures value == 0 ==> s == end
  {
    hide Grouped;
    ZeroTimes(Power(10, |x|));
    if x == [] {
      NoDigitsLeft();
      LeadingDigit(num, end, s, x, comma);
    } else {
      SplitDone(value, x);
      LeadingIsPositive(x);
    }
  }

  /** At most one zero stands in front, and it is the one that is skipped. */
  lemma Finished(num: seq<nat>, end: nat, s: nat, x: Digits, comma: bool, value: nat)
    requires Written(num, end, s, x, comma, false) && Split(value, 0, x)
    requires comma && x != [] ==> x[0] > 0
    requires !comma && x != [] ==> |x| > 1 && (x[0] > 0 || x[1] > 0 || x == [0, 0])
    ensures var t := if s != end && num[s] == ZERO_CHAR then s + 1 else s;
      && t <= end && (value > 0 ==> num[t..end] == NumberText(value, comma))
      && (value == 0 ==> t == end || num[t..end] == [ZERO_CHAR])
  {
    hide Written, Split, NumberText;
    WrittenFits(num, end, s, x, comma, false);
    LeadingDigit(num, end, s, x, comma);
    if x == [] || x[0] > 0 {
      WrittenDone(num, end, s, x, comma, value);
    } else {
      DropLeading(num, end, s, x);
      ZeroInFront(value, 0, x);
      var y := x[1..];
      LeadingDigit(num, end, s + 1, y, comma);
      if y[0] > 0 {
        WrittenDone(num, end, s + 1, y, comma, value);
      } else {
        DropLeading(num, end, s + 1, y);
        ZeroInFront(value, 0, y);
        LeadingDigit(num, end, s + 2, y[1..], comma);
        WrittenDone(num, end, s + 2, y[1..], comma, value);
        assert num[s + 1..end] == [num[s + 1]] + num[s + 2..end];
      }
    }
  }

  lemma TextOfZero(comma: bool)
    ensures NumberText(0, comma) == [ZERO_CHAR]
  {
    FewGrouped([ZERO_CHAR], 3);
  }

  lemma NoDigitsLeft()
    ensures ValueOf([], 10) == 0
  {
  }

  lemma LeadingIsPositive(x: Digits)
    requires AreDigits(x, 10) && x != [] && x[0] > 0
    ensures ValueOf(x, 10) > 0
  {
    DigitsOfValue(x, 10);
  }

  /** Three chunks hold 64 bits. */
  lemma ThreeChunks(n64: nat, j: nat)
    requires j <= 2 && (j == 0 ==> n64 < U64_LIMIT) && (j == 1 ==> n64 < 200000000000) && (j == 2 ==> n64 < 2000)
    ensures j == 0 ==> n64 / CHUNK < 200000000000
    ensures j == 1 ==> n64 / CHUNK < 2000
    ensures j == 2 ==> n64 / CHUNK == 0
    ensures n64 >= CHUNK <==> n64 / CHUNK > 0
    ensures n64 < CHUNK ==> n64 % CHUNK == n64
  {
  }

  /**
   * The %d and %u conversion of a magnitude: the text ends at the end of num, starts at s
   * and is l characters long.  The test for a leading zero looks at s first and at the
   * character second; the source asks in the other order.
   */
  method ConvertInteger(num: array<nat>, value: nat, comma: bool) returns (s: nat, l: nat)
    requires num.Length == NUMSZ && value < U64_LIMIT
    modifies num
    ensures s <= NUMSZ && num[s..] == NumberText(value, comma) && l == |NumberText(value, comma)|
  {
    hide Written, Chunk, Split, Since, NumberText;
    s, l := NUMSZ, 0;
    var n64 := value;
    ghost var x: Digits := [];
    ghost var j := 0;
    SplitStart(value);
    NothingWritten(num[..], NUMSZ, comma);
    NoDigitSince(0);
    while true
      invariant j <= 2 && |x| == 8 * j && NUMSZ - 32 * j <= s <= NUMSZ
      invariant (j == 0 ==> n64 == value < U64_LIMIT) && (j == 1 ==> n64 < 200000000000) && (j == 2 ==> n64 < 2000)
      invariant j > 0 ==> n64 > 0
      invariant Split(value, n64, x) && Written(num[..], NUMSZ, s, x, comma, false)
      invariant comma ==> l == Since(|x|, false)
      decreases n64
    {
      ghost var first := n64;
      ChunkStart(value, n64, x);
      ThreeChunks(n64, j);
      var o := s - 8;
      var n;
      if n64 >= CHUNK {
        n := n64 % CHUNK;
        n64 := n64 / CHUNK;
      } else {
        n := n64;
        n64 := 0;
      }
      ghost var i := 0;
      if !comma {
        s, i, x := PutPairs(num, NUMSZ, s, n, value, n64, x);
        n := 0;
      }
      s, o, l, i, x := PutDigits(num, NUMSZ, s, o, n, comma, l, value, n64, i, x);
      if n64 == 0 {
        LastChunkDone(value, i, x);
        WrittenFits(num[..], NUMSZ, s, x, comma, false);
        Finished(num[..], NUMSZ, s, x, comma, value);
        if s != NUMSZ && num[s] == ZERO_CHAR {
          s := s + 1;
        }
        break;
      }
      s, l, x := FillZeros(num, NUMSZ, s, o, comma, l, value, n64, i, x);
      ChunkDone(value, n64, x);
      j := j + 1;
    }
    l := NUMSZ - s;
    TextOfZero(comma);
    if l == 0 {
      s := s - 1;
      num[s] := ZERO_CHAR;
      l := 1;
    }
  }

  lemma NothingWritten(num: seq<nat>, end: nat, comma: bool)
    requires end <= |num|
    ensures Written(num, end, end, [], comma, false)
  {
    WiderBase([]);
    FewGrouped(Chars([]), 3);
    assert num[end..end] == [];
  }
}

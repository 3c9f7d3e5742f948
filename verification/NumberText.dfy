// Printing and parsing numbers (bootloader/gnu-efi/lib/print.c:1327-1404,
// bootloader/gnu-efi/lib/str.c:267-323).
module NumberTexts {
  import opened Bits
  import opened Numerals
  import opened WideTexts

  // ----- digits into a scratch array, lowest first

  /** The first n places of the scratch array hold these digits backwards, as characters. */
  ghost predicate Holds(str: seq<nat>, n: nat, done: Digits) {
    n == |done| && n <= |str| && AreDigits(done, 16) && forall i :: 0 <= i < n ==> str[i] == DigitChar(done[n - 1 - i])
  }

  lemma {:induction false} PowerBound(v: nat, b: Base, n: nat)
    requires v < Power(b, n) && v > 0
    ensures n > 0 && v / b < Power(b, n - 1)
  {
    assert v == b * (v / b) + v % b;
    if v / b >= Power(b, n - 1) {
      MulMonotone(b, Power(b, n - 1), v / b);
    }
  }

  lemma HexLimit()
    ensures Power(16, 16) == U64_LIMIT
  {
    assert Power(16, 4) == 0x1_0000;
    assert Power(16, 8) == 0x1_0000_0000;
    assert Power(16, 12) == 0x1_0000_0000_0000;
  }

  lemma DecimalLimit()
    ensures Power(10, 20) >= U64_LIMIT
  {
    assert Power(10, 5) == 100000;
    assert Power(10, 10) == 10000000000;
    assert Power(10, 15) == 1000000000000000;
  }

  /** `RShiftU64` and `v & 0xf` for base 16, `DivU64x32` for base 10: quotient and remainder. */
  function Divided(v: nat, b: Base): (r: (nat, nat))
    ensures r.1 < b
  {
    (v / b, v % b)
  }

  lemma DigitsStep(v: nat, b: Base, n: nat)
    requires 0 < v < Power(b, n)
    ensures var (q, r) := Divided(v, b);
      DigitsOf(v, b) == DigitsOf(q, b) + [r] && q < v && n > 0 && q < Power(b, n - 1)
  {
    Quotient(v, b);
    PowerBound(v, b, n);
  }

  lemma HoldsMore(str: seq<nat>, n: nat, done: Digits, d: nat)
    requires Holds(str, n, done) && n < |str| && d < 16
    ensures Holds(str[n := DigitChar(d)], n + 1, [d] + done)
  {
  }

  lemma NothingHeld(str: seq<nat>)
    ensures Holds(str, 0, [])
  {
  }

  lemma JoinAround(x: Digits, d: nat, y: Digits)
    ensures x + [d] + y == x + ([d] + y)
  {
  }

  /**
   * The digits of a number, lowest first.  The source writes this loop twice: with
   * `& 0xf` and a shift by 4 for base 16, and with a division by 10.
   */
  method DigitsToScratch(str: array<nat>, value: nat, b: Base, ghost limit: nat) returns (n: nat)
    requires b <= 16 && value < Power(b, limit) && limit <= str.Length
    modifies str
    ensures n <= limit && Holds(str[..], n, DigitsOf(value, b))
  {
    hide Power, DigitsOf, Holds, DigitChar, Divided;
    var v := value;
    n := 0;
    ghost var done: Digits := [];
    NothingHeld(str[..]);
    assert DigitsOf(value, b) == DigitsOf(v, b) + done;
    while v != 0
      invariant 0 <= v && n <= limit && v < Power(b, limit - n)
      invariant Holds(str[..], n, done) && DigitsOf(value, b) == DigitsOf(v, b) + done
      decreases v
    {
      DigitsStep(v, b, limit - n);
      var (q, r) := Divided(v, b);
      JoinAround(DigitsOf(q, b), r, done);
      HoldsMore(str[..], n, done, r);
      ghost var more := str[..][n := DigitChar(r)];
      str[n] := DigitChar(r);
      assert str[..] == more;
      done := [r] + done;
      n := n + 1;
      v := q;
    }
    ZeroDigits(b);
    assert DigitsOf(value, b) == done;
  }

  /** ValueToHex. */
  method ValueToHex(buffer: array<nat>, value: nat)
    requires value < U64_LIMIT && buffer.Length >= 17
    modifies buffer
    ensures var t := Hexadecimal(value);
      |t| < buffer.Length && buffer[..|t|] == t && buffer[|t|] == 0
  {
    hide Power, DigitsOf;
    if value == 0 {
      buffer[0] := ZERO_CHAR;
      buffer[1] := 0;
      return;
    }
    HexLimit();
    var str := new nat[30];
    var p1 := DigitsToScratch(str, value, 16, 16);
    ghost var t := Hexadecimal(value);
    var p2 := 0;
    while p1 != 0
      invariant 0 <= p1 <= |t| <= 16 && p2 == |t| - p1
      invariant forall i :: 0 <= i < |t| ==> str[i] == t[|t| - 1 - i]
      invariant forall i :: 0 <= i < p2 ==> buffer[i] == t[i]
      decreases p1
    {
      p1 := p1 - 1;
      buffer[p2] := str[p1];
      p2 := p2 + 1;
    }
    buffer[p2] := 0;
  }

  lemma ZeroDigits(b: Base)
    ensures DigitsOf(0, b) == []
  {
  }

  // ----- the signed decimal printer

  /** The magnitude; the code negates in 64 bits, which is right even for the lowest value. */
  function Magnitude(v: int): nat {
    if v < 0 then -v else v
  }

  /** What ValueToString writes. */
  function SignedText(v: int, comma: bool): (t: seq<nat>)
    ensures |t| > 0
  {
    (if v < 0 then ['-' as int] else []) + (if comma then WithCommas(Decimal(Magnitude(v))) else Decimal(Magnitude(v)))
  }

  /** The text after the first i characters of t have been copied with their commas. */
  function Copied(t: seq<nat>, i: nat, comma: bool): seq<nat>
    requires i <= |t|
  {
    if i == 0 then []
    else Copied(t, i - 1, comma) + (if comma && CommaBefore(|t|, i - 1) then [COMMA] else []) + [t[i - 1]]
  }

  /** A comma goes before place i of n when a multiple of three places is left. */
  predicate CommaBefore(n: nat, i: nat) {
    0 < i < n && (n - i) % 3 == 0
  }

  lemma {:induction false} CopiedPlain(t: seq<nat>, i: nat)
    requires i <= |t|
    ensures Copied(t, i, false) == t[..i]
  {
    if i > 0 {
      CopiedPlain(t, i - 1);
      assert t[..i] == t[..i - 1] + [t[i - 1]];
    }
  }

  lemma {:induction false} CopiedFront(t: seq<nat>, i: nat)
    requires |t| > 3 && i <= |t| - 3
    ensures Copied(t, i, true) == Copied(t[..|t| - 3], i, true)
  {
    if i > 0 {
      CopiedFront(t, i - 1);
    }
  }

  /** Copying digit by digit with a countdown writes the commas where they belong. */
  lemma {:induction false} CopiedCommas(t: seq<nat>)
    requires |t| > 0
    ensures Copied(t, |t|, true) == WithCommas(t)
    decreases |t|
  {
    hide Copied, Grouped, CommaBefore;
    var n := |t|;
    if n <= 3 {
      CopiedShort(t, n);
      FewGrouped(t, 3);
      assert t[..n] == t;
    } else {
      CopiedCommas(t[..n - 3]);
      CopiedFront(t, n - 3);
      CopiedStep(t, n - 3, true);
      CopiedStep(t, n - 2, true);
      CopiedStep(t, n - 1, true);
      LastCommas(n);
      GroupedSplit(t, 3);
      LastThree(Copied(t, n - 3, true), Copied(t, n - 2, true), Copied(t, n - 1, true), Copied(t, n, true), t[n - 3..]);
    }
  }

  lemma LastCommas(n: nat)
    requires n > 3
    ensures CommaBefore(n, n - 3) && !CommaBefore(n, n - 2) && !CommaBefore(n, n - 1)
  {
  }

  lemma CopiedStep(t: seq<nat>, i: nat, comma: bool)
    requires i < |t|
    ensures Copied(t, i + 1, comma)
      == Copied(t, i, comma) + (if comma && CommaBefore(|t|, i) then [COMMA] else []) + [t[i]]
  {
  }

  lemma LastThree(s0: seq<nat>, s1: seq<nat>, s2: seq<nat>, s3: seq<nat>, last: seq<nat>)
    requires |last| == 3 && s1 == s0 + [COMMA] + [last[0]] && s2 == s1 + [] + [last[1]] && s3 == s2 + [] + [last[2]]
    ensures s3 == s0 + [COMMA] + last
  {
  }

  lemma {:induction false} CopiedShort(t: seq<nat>, i: nat)
    requires |t| <= 3 && i <= |t|
    ensures Copied(t, i, true) == t[..i]
  {
    if i > 0 {
      CopiedShort(t, i - 1);
      assert t[..i] == t[..i - 1] + [t[i - 1]];
    }
  }

  /** With commas the first i of n places take one place more for each group passed. */
  lemma {:induction false} CopiedLength(t: seq<nat>, i: nat)
    requires 0 < i <= |t|
    ensures |Copied(t, i, true)| == i + (|t| - 1) / 3 - (|t| - i) / 3
  {
    if i > 1 {
      CopiedLength(t, i - 1);
    }
  }

  /** The countdown to the next comma when i of n characters have been copied. */
  function Countdown(n: nat, i: nat): nat {
    if i == 0 then (if n % 3 == 0 then 3 else if n % 3 == 1 then 1 else 2) + 1
    else if i <= n && (n - i) % 3 == 0 then 1 else if i <= n then (n - i) % 3 + 1 else 1
  }

  lemma CountdownStep(n: nat, i: nat)
    requires i < n
    ensures Countdown(n, i) - 1 == 0 <==> CommaBefore(n, i)
    ensures Countdown(n, i + 1) == if CommaBefore(n, i) then 3 else Countdown(n, i) - 1
  {
  }

  /** ValueToString. */
  method ValueToString(buffer: array<nat>, comma: bool, value: int)
    requires -0x8000_0000_0000_0000 <= value < 0x8000_0000_0000_0000 && buffer.Length >= 28
    modifies buffer
    ensures var t := SignedText(value, comma);
      |t| < buffer.Length && buffer[..|t|] == t && buffer[|t|] == 0
  {
    hide Power, DigitsOf, Grouped, Countdown, Copied;
    if value == 0 {
      buffer[0] := ZERO_CHAR;
      buffer[1] := 0;
      assert WithCommas([ZERO_CHAR]) == [ZERO_CHAR] by { FewGrouped([ZERO_CHAR], 3); }
      return;
    }
    var str := new nat[40];
    var p2 := 0;
    var v := value;
    if v < 0 {
      buffer[p2] := '-' as int;
      p2 := p2 + 1;
      v := -v;
    }
    DecimalLimit();
    var n := DigitsToScratch(str, v, 10, 20);
    ghost var t := Decimal(v);
    p2 := CopyDigits(buffer, p2, str, n, comma, t);
    if comma {
      CopiedCommas(t);
    } else {
      CopiedPlain(t, n);
      assert t[..n] == t;
    }
    buffer[p2] := 0;
  }

  /** The last loop of ValueToString: the scratch digits are copied backwards, with commas. */
  method CopyDigits(buffer: array<nat>, start: nat, str: array<nat>, n: nat, comma: bool, ghost t: seq<nat>)
    returns (p2: nat)
    requires buffer != str && n == |t| <= 20 && n <= str.Length && start <= 1 && buffer.Length >= 28
    requires forall i :: 0 <= i < n ==> str[i] == t[n - 1 - i]
    modifies buffer
    ensures start <= p2 < buffer.Length && buffer[..p2] == old(buffer[..start]) + Copied(t, n, comma)
  {
    hide Copied, Countdown, CommaBefore;
    p2 := start;
    var p1 := n;
    var c := if comma then Ca(p1 % 3) + 1 else 1000;
    CountdownStart(n);
    NothingCopied(t, comma);
    ghost var sign := buffer[..start];
    while p1 != 0
      invariant 0 <= p1 <= n
      invariant c == if comma then Countdown(n, n - p1) else 1000 - (n - p1)
      invariant start <= p2 == start + |Copied(t, n - p1, comma)| <= 27
      invariant buffer[..p2] == sign + Copied(t, n - p1, comma)
      decreases p1
    {
      ghost var i := n - p1;
      ghost var before := buffer[..p2];
      CountdownStep(n, i);
      CopiedRoom(t, i + 1, comma);
      CopiedStep(t, i, comma);
      c := c - 1;
      if c == 0 {
        buffer[p2] := COMMA;
        p2 := p2 + 1;
        c := 3;
      }
      assert buffer[..p2] == before + (if comma && CommaBefore(n, i) then [COMMA] else []);
      p1 := p1 - 1;
      buffer[p2] := str[p1];
      p2 := p2 + 1;
      assert buffer[..p2] == before + (if comma && CommaBefore(n, i) then [COMMA] else []) + [t[i]];
    }
  }

  lemma NothingCopied(t: seq<nat>, comma: bool)
    ensures Copied(t, 0, comma) == []
  {
  }

  /** The table ca. */
  function Ca(i: nat): nat
    requires i < 3
  {
    [3, 1, 2][i]
  }

  lemma CountdownStart(n: nat)
    ensures Countdown(n, 0) == Ca(n % 3) + 1
  {
  }

  lemma CopiedRoom(t: seq<nat>, i: nat, comma: bool)
    requires 0 < i <= |t| <= 20
    ensures |Copied(t, i, comma)| <= 26
  {
    if comma {
      CopiedLength(t, i);
    } else {
      CopiedPlain(t, i);
    }
  }

  // ----- the parsers

  function SkipSpaces(s: Text): Text {
    if s != [] && s[0] == ' ' as int then SkipSpaces(s[1..]) else s
  }

  predicate IsDecimalDigit(c: nat) {
    ('0' as int) <= c <= ('9' as int)
  }

  predicate IsHexDigit(c: nat) {
    IsDecimalDigit(c) || ('A' as int) <= c <= ('F' as int) || ('a' as int) <= c <= ('f' as int)
  }

  function HexDigit(c: nat): (d: nat)
    requires IsHexDigit(c)
    ensures d < 16
  {
    if IsDecimalDigit(c) then c - '0' as int else if c >= 'a' as int then c - 'a' as int + 10 else c - 'A' as int + 10
  }

  /** The digits at the start of a string. */
  function LeadingDecimal(s: Text): (d: Digits)
    ensures AreDigits(d, 10)
  {
    if s != [] && IsDecimalDigit(s[0]) then [s[0] - '0' as int] + LeadingDecimal(s[1..]) else []
  }

  function LeadingHex(s: Text): (d: Digits)
    ensures AreDigits(d, 16)
  {
    if s != [] && IsHexDigit(s[0]) then [HexDigit(s[0])] + LeadingHex(s[1..]) else []
  }

  lemma WrapShift(x: nat, b: Base, d: nat)
    ensures Wrap(Wrap(x) * b + d) == Wrap(x * b + d)
  {
    assert x == U64_LIMIT * (x / U64_LIMIT) + Wrap(x);
    assert x * b == U64_LIMIT * (x / U64_LIMIT * b) + Wrap(x) * b by {
      Distribute(x / U64_LIMIT, U64_LIMIT, Wrap(x), b);
      MulCommute(x / U64_LIMIT, U64_LIMIT, b);
    }
    WrapMultiple(x / U64_LIMIT * b, Wrap(x) * b + d);
  }

  lemma MulCommute(q: nat, m: nat, b: nat)
    ensures q * (m * b) == m * (q * b)
  {
  }

  lemma WrapMultiple(q: nat, r: nat)
    ensures Wrap(U64_LIMIT * q + r) == Wrap(r)
  {
  }

  lemma NoValue(b: Base)
    ensures ValueOf([], b) == 0
  {
  }

  lemma DecimalStep(s: Text)
    ensures LeadingDecimal(s) ==
      if s != [] && IsDecimalDigit(s[0]) then [s[0] - '0' as int] + LeadingDecimal(s[1..]) else []
  {
  }

  lemma HexStep(s: Text)
    ensures LeadingHex(s) == if s != [] && IsHexDigit(s[0]) then [HexDigit(s[0])] + LeadingHex(s[1..]) else []
  {
  }

  /** The loop over leading spaces, the same in both parsers. */
  method SkipLeading(text: Text) returns (str: Text)
    ensures str == SkipSpaces(text)
  {
    str := text;
    while Head(str) == ' ' as int
      invariant SkipSpaces(str) == SkipSpaces(text)
      decreases |str|
    {
      str := str[1..];
    }
  }

  /** Atoi: the value of the leading decimal digits, modulo 2^64. */
  method Atoi(text: Text) returns (u: nat)
    ensures u == Wrap(ValueOf(LeadingDecimal(SkipSpaces(text)), 10))
  {
    hide Wrap, ValueOf, LeadingDecimal, SkipSpaces;
    var str := SkipLeading(text);
    u := 0;
    ghost var done: Digits := [];
    WrapFits(0);
    NoValue(10);
    assert [] + LeadingDecimal(str) == LeadingDecimal(str);
    while true
      invariant LeadingDecimal(SkipSpaces(text)) == done + LeadingDecimal(str)
      invariant u == Wrap(ValueOf(done, 10))
      decreases |str|
    {
      var c := Head(str);
      DecimalStep(str);
      if c == 0 {
        break;
      }
      if c >= '0' as int && c <= '9' as int {
        WrapShift(ValueOf(done, 10), 10, c - '0' as int);
        u := Wrap(u * 10 + c - '0' as int);
        ValueOfMore(done, c - '0' as int, 10);
        JoinAround(done, c - '0' as int, LeadingDecimal(str[1..]));
        done := done + [c - '0' as int];
      } else {
        break;
      }
      str := str[1..];
    }
    assert done + [] == done;
  }

  /** xtoi: the value of the leading hexadecimal digits, modulo 2^64. */
  method Xtoi(text: Text) returns (u: nat)
    ensures u == Wrap(ValueOf(LeadingHex(SkipSpaces(text)), 16))
  {
    hide Wrap, ValueOf, LeadingHex, SkipSpaces;
    var str := SkipLeading(text);
    u := 0;
    ghost var done: Digits := [];
    WrapFits(0);
    NoValue(16);
    assert [] + LeadingHex(str) == LeadingHex(str);
    while true
      invariant LeadingHex(SkipSpaces(text)) == done + LeadingHex(str)
      invariant u == Wrap(ValueOf(done, 16))
      decreases |str|
    {
      var c := Head(str);
      HexStep(str);
      if c == 0 {
        break;
      }
      if c >= 'a' as int && c <= 'f' as int {
        c := c - ('a' as int - 'A' as int);
      }
      if (c >= '0' as int && c <= '9' as int) || (c >= 'A' as int && c <= 'F' as int) {
        var d := c - (if c >= 'A' as int then 'A' as int - 10 else '0' as int);
        assert IsHexDigit(str[0]) && d == HexDigit(str[0]);
        ShiftOrDigit(ValueOf(done, 16), u, d);
        u := Or(Wrap(u * 16), d);
        ValueOfMore(done, d, 16);
        JoinAround(done, d, LeadingHex(str[1..]));
        done := done + [d];
      } else {
        break;
      }
      str := str[1..];
    }
    assert done + [] == done;
  }

  /** `(u << 4) | d` in 64 bits */
  lemma ShiftOrDigit(x: nat, u: nat, d: nat)
    requires u == Wrap(x) && d < 16
    ensures Or(Wrap(u * 16), d) == Wrap(x * 16 + d)
  {
    hide Or;
    WrapShift(x, 16, d);
    var h := Wrap(u * 16) / 16;
    assert Wrap(u * 16) == 16 * h && Wrap(u * 16 + d) == 16 * h + d by {
      SixteenFits(u, d);
    }
    Shl4(h);
    Shl4(0);
    SixteenIsPower();
    OrJoin(0, d, h, 0, 4);
    OrZero(h);
    OrFromZero(d);
  }

  lemma SixteenFits(u: nat, d: nat)
    requires d < 16
    ensures Wrap(u * 16) % 16 == 0 && Wrap(u * 16 + d) == Wrap(u * 16) + d
  {
  }

  lemma Shl4(x: nat)
    ensures Shl(x, 4) == 16 * x
  {
    ShlFour(x, 0);
  }

  lemma SixteenIsPower()
    ensures Pow2(4) == 16
  {
    Pow2IsShift(4);
    Shl4(1);
  }

  // ----- round trips

  lemma {:induction false} LeadingDecimalOfChars(d: Digits)
    requires AreDigits(d, 10)
    ensures AreDigits(d, 16) && LeadingDecimal(Chars(d)) == d
    decreases |d|
  {
    WiderBase(d);
    if d != [] {
      LeadingDecimalOfChars(d[1..]);
      assert Chars(d)[1..] == Chars(d[1..]);
    }
  }

  lemma {:induction false} LeadingHexOfChars(d: Digits)
    requires AreDigits(d, 16)
    ensures LeadingHex(Chars(d)) == d
    decreases |d|
  {
    if d != [] {
      LeadingHexOfChars(d[1..]);
      assert Chars(d)[1..] == Chars(d[1..]);
    }
  }

  /** For every 64-bit value the hexadecimal printer and parser are inverse. */
  lemma HexRoundTrip(v: nat)
    requires v < U64_LIMIT
    ensures Wrap(ValueOf(LeadingHex(SkipSpaces(Hexadecimal(v))), 16)) == v
  {
    WrapFits(v);
    hide Wrap, DigitsOf, ValueOf;
    if v == 0 {
      assert SkipSpaces([ZERO_CHAR]) == [ZERO_CHAR];
      ZeroReads();
    } else {
      NoSpaces(Hexadecimal(v));
      LeadingHexOfChars(DigitsOf(v, 16));
      ValueOfDigits(v, 16);
    }
  }

  lemma ZeroReads()
    ensures ValueOf(LeadingHex([ZERO_CHAR]), 16) == 0 && ValueOf(LeadingDecimal([ZERO_CHAR]), 10) == 0
  {
    assert LeadingHex([ZERO_CHAR]) == [0] && LeadingDecimal([ZERO_CHAR]) == [0];
    assert [0][..0] == [];
  }

  lemma NoSpaces(t: Text)
    requires t != [] && t[0] != ' ' as int
    ensures SkipSpaces(t) == t
  {
  }

  /** For every 64-bit value the decimal printer without commas and the parser are inverse. */
  lemma DecimalRoundTrip(v: nat)
    requires v < U64_LIMIT
    ensures Wrap(ValueOf(LeadingDecimal(SkipSpaces(Decimal(v))), 10)) == v
  {
    WrapFits(v);
    hide Wrap, DigitsOf, ValueOf;
    if v == 0 {
      assert SkipSpaces([ZERO_CHAR]) == [ZERO_CHAR];
      ZeroReads();
    } else {
      WiderBase(DigitsOf(v, 10));
      NoSpaces(Decimal(v));
      LeadingDecimalOfChars(DigitsOf(v, 10));
      ValueOfDigits(v, 10);
    }
  }

  /** A hexadecimal letter in small. */
  function Small(c: Char16): Char16 {
    if 'A' as int <= c <= 'F' as int then c + 32 else c
  }

  function InSmall(t: Text): (s: Text)
    ensures |s| == |t|
  {
    seq(|t|, i requires 0 <= i < |t| => Small(t[i]))
  }

  /** A numeral in small letters is read like the same numeral in capitals. */
  lemma {:induction false} SmallReadsSame(t: Text)
    ensures LeadingHex(InSmall(t)) == LeadingHex(t)
    decreases |t|
  {
    if t != [] {
      SmallReadsSame(t[1..]);
      assert InSmall(t)[1..] == InSmall(t[1..]);
    }
  }

  /** For every 64-bit value the parser reads its hexadecimal form in small letters, too. */
  lemma SmallRoundTrip(v: nat)
    requires v < U64_LIMIT
    ensures Wrap(ValueOf(LeadingHex(InSmall(Hexadecimal(v))), 16)) == v
  {
    hide Wrap, ValueOf, LeadingHex;
    SmallReadsSame(Hexadecimal(v));
    HexRoundTrip(v);
    HexFirst(v);
    NoSpaces(Hexadecimal(v));
  }

  lemma HexFirst(v: nat)
    ensures Hexadecimal(v)[0] != ' ' as int
  {
  }

  /** Reading stops at the first character that is no digit. */
  lemma {:induction false} ReadingStops(t: Text, rest: Text)
    requires rest != []
    ensures (forall i :: 0 <= i < |t| ==> IsDecimalDigit(t[i])) && !IsDecimalDigit(rest[0]) ==>
      |LeadingDecimal(t + rest)| == |t| && LeadingDecimal(t + rest) == LeadingDecimal(t)
    ensures (forall i :: 0 <= i < |t| ==> IsHexDigit(t[i])) && !IsHexDigit(rest[0]) ==>
      |LeadingHex(t + rest)| == |t| && LeadingHex(t + rest) == LeadingHex(t)
    decreases |t|
  {
    if t == [] {
      assert t + rest == rest;
    } else {
      assert (t + rest)[1..] == t[1..] + rest;
      ReadingStops(t[1..], rest);
    }
  }

  /** Digits are the ten figures, and for base 16 six letters in either case. */
  lemma DigitCharacters(c: nat)
    ensures IsDecimalDigit(c) <==> 0x30 <= c <= 0x39
    ensures IsHexDigit(c) <==> 0x30 <= c <= 0x39 || 0x41 <= c <= 0x46 || 0x61 <= c <= 0x66
  {
  }

  /** Spaces in front are skipped, whatever stands behind them. */
  lemma {:induction false} SpacesSkipped(n: nat, t: Text)
    requires t == [] || t[0] != ' ' as int
    ensures SkipSpaces(seq(n, _ => ' ' as int) + t) == t
    decreases n
  {
    var spaces: Text := seq(n, _ => ' ' as int);
    if n == 0 {
      assert spaces + t == t;
    } else {
      assert (spaces + t)[1..] == seq(n - 1, _ => ' ' as int) + t;
      SpacesSkipped(n - 1, t);
    }
  }

  /** A negative number has a minus sign and the numeral of its magnitude, any other its numeral. */
  lemma SignedRoundTrip(v: int)
    requires -0x1_0000_0000_0000_0000 < v < 0x1_0000_0000_0000_0000
    ensures var t := SignedText(v, false);
      && (v < 0 ==> t[0] == 0x2D && Wrap(ValueOf(LeadingDecimal(Decimal(-v)), 10)) == -v && t[1..] == Decimal(-v))
      && (v >= 0 ==> t == Decimal(v) && Wrap(ValueOf(LeadingDecimal(t), 10)) == v)
  {
    hide Wrap, ValueOf, LeadingDecimal;
    var n := if v < 0 then -v else v;
    DecimalRoundTrip(n);
    DecimalFirst(n);
    NoSpaces(Decimal(n));
  }

  lemma DecimalFirst(v: nat)
    ensures Decimal(v)[0] != ' ' as int
  {
    WiderBase(DigitsOf(v, 10));
  }

  /** The number of three digits. */
  lemma ThreeDigits(a: nat, b: nat, c: nat, base: Base)
    requires a < base && b < base && c < base && a > 0
    ensures DigitsOf((a * base + b) * base + c, base) == [a, b, c]
  {
    hide DigitsOf, ValueOf;
    NoValue(base);
    ValueOfMore([], a, base);
    ValueOfMore([a], b, base);
    ValueOfMore([a, b], c, base);
    assert [] + [a] == [a] && [a] + [b] == [a, b] && [a, b] + [c] == [a, b, c];
    DigitsOfValue([a, b, c], base);
  }

  /** Three numerals, character by character. */
  lemma ThreeNumerals()
    ensures Decimal(107) == [0x31, 0x30, 0x37] && SignedText(-107, false) == [0x2D, 0x31, 0x30, 0x37]
    ensures Hexadecimal(0x1AF) == [0x31, 0x41, 0x46]
  {
    hide DigitsOf;
    ThreeDigits(1, 0, 7, 10);
    ThreeDigits(1, 10, 15, 16);
  }

  /** The form with commas is the same numeral with commas, and its sign is the value's sign. */
  lemma CommaFormIsNumeral(v: int)
    ensures WithoutCommas(SignedText(v, true)) == SignedText(v, false)
  {
    hide DigitsOf, Grouped, WithoutCommas;
    WiderBase(DigitsOf(Magnitude(v), 10));
    CommasDeleted(Decimal(Magnitude(v)), 3);
    if v < 0 {
      WithoutCommasJoin(['-' as int], WithCommas(Decimal(Magnitude(v))));
      NothingToDelete(['-' as int]);
    } else {
      assert [] + WithCommas(Decimal(Magnitude(v))) == WithCommas(Decimal(Magnitude(v)));
    }
  }
}

// Format directives as they are written, and that the code reads them back
// (rizzos/lib/stb_sprintf.h:433-569).
module StbDirectives {
  import opened Options
  import opened Bits
  import opened StbWords
  import opened StbOutputs
  import opened StbLiterals
  import opened StbRadixes
  import opened StbFormats
  import Numerals

  // ----- directives as they are written

  /** A width or precision: left out, in digits, or a star that takes an argument. */
  datatype Amount = Absent | Given(n: nat) | Star(v: int) {
    predicate Legal() {
      (Given? ==> n < 0x8000_0000) && (Star? ==> -0x8000_0000 <= v < 0x8000_0000)
    }

    function Written(): Text {
      match this
      case Absent => []
      case Given(n) => InDecimal(n)
      case Star(_) => Ascii("*")
    }

    function Args(): seq<Arg> {
      if Star? then [Int(v)] else []
    }

    function Value(absent: int): int {
      match this
      case Absent => absent
      case Given(n) => n
      case Star(v) => v
    }
  }

  /** The bytes of a text of one-byte characters. */
  function Ascii(s: string): (t: Text)
    ensures |t| == |s|
  {
    seq(|s|, i requires 0 <= i < |s| => s[i] as int % 256)
  }

  function InDecimal(n: nat): (t: Text)
    ensures t == Numerals.Decimal(n)
  {
    NumberBytes(n, false);
    Numerals.Decimal(n)
  }

  predicate Has(s: string, c: char) {
    c in s
  }

  predicate FlagChar(c: char) {
    c == '-' || c == '+' || c == ' ' || c == '#' || c == '\''
  }

  /** The size letters, on a 64-bit target. */
  datatype Size = NoSize | H | HH | I32 | L | LL | J | Z | T | I | I64 {
    function Written(): Text {
      match this
      case NoSize => []
      case H => [Ch('h')]
      case HH => [Ch('h'), Ch('h')]
      case I32 => [Ch('I'), Ch('3'), Ch('2')]
      case L => [Ch('l')]
      case LL => [Ch('l'), Ch('l')]
      case J => [Ch('j')]
      case Z => [Ch('z')]
      case T => [Ch('t')]
      case I => [Ch('I')]
      case I64 => [Ch('I'), Ch('6'), Ch('4')]
    }

    /** An integer argument has 64 bits instead of 32. */
    predicate Long() {
      L? || LL? || J? || Z? || T? || I? || I64?
    }
  }

  /** A directive: flags in any order, a zero behind them, width, precision, size, conversion. */
  datatype Spec = Spec(flags: string, zero: bool, width: Amount, precision: Amount, size: Size, code: char) {
    predicate Legal() {
      && (forall c <- flags :: FlagChar(c))
      && width.Legal() && precision.Legal() && (width.Given? ==> width.n > 0)
      && CodeChar(code)
    }

    function Start(): Text {
      Ascii(flags) + (if zero then Ascii("0") else [])
    }

    function PrecisionText(): Text {
      if precision.Absent? then [] else Ascii(".") + precision.Written()
    }

    function End(): Text {
      size.Written() + Ascii([code])
    }

    /** The characters of the directive. */
    function Written(): Text {
      Ascii("%") + Start() + width.Written() + PrecisionText() + End()
    }

    /** The arguments that the stars take. */
    function Args(): seq<Arg> {
      width.Args() + precision.Args()
    }

    /** What the characters in front of the conversion ask for. */
    function Flags(): Flags {
      var fl := WithFlags(NO_FLAGS.(zero := zero), flags);
      fl.(half := size.H? || size.HH?, intmax := size.Long())
    }

    predicate Left() {
      Has(flags, '-')
    }

    predicate Commas() {
      Has(flags, '\'')
    }
  }

  /** The conversions that have a meaning here. */
  predicate CodeChar(c: char) {
    || c == 'd' || c == 'i' || c == 'u' || c == 'x' || c == 'X' || c == 'o' || c == 'b' || c == 'B' || c == 'p'
    || c == 's' || c == 'c' || c == '%'
  }

  // ----- reading a directive

  /** t stands at f, and the closing NUL is further on. */
  ghost predicate Stands(fmt: Text, f: nat, t: Text) {
    f + |t| < |fmt| && fmt[f..f + |t|] == t && InText(fmt, f + |t|)
  }

  lemma StandsInText(fmt: Text, f: nat, t: Text)
    requires Stands(fmt, f, t)
    ensures InText(fmt, f)
  {
  }

  lemma StandsJoined(fmt: Text, f: nat, a: Text, b: Text)
    requires Stands(fmt, f, a + b)
    ensures Stands(fmt, f, a) && Stands(fmt, f + |a|, b)
  {
    assert fmt[f..f + |a|] == (a + b)[..|a|] == a;
    assert fmt[f + |a|..f + |a| + |b|] == (a + b)[|a|..] == b;
  }

  lemma StandsFirst(fmt: Text, f: nat, t: Text)
    requires Stands(fmt, f, t) && t != []
    ensures fmt[f] == t[0] && Stands(fmt, f + 1, t[1..])
  {
    assert fmt[f] == fmt[f..f + |t|][0];
    assert fmt[f + 1..f + |t|] == fmt[f..f + |t|][1..];
  }

  function Added(fl: Flags, left: bool, plus: bool, space: bool, alt: bool, comma: bool): Flags {
    fl.(left := fl.left || left, plus := fl.plus || plus, space := fl.space || space, alt := fl.alt || alt,
        comma := fl.comma || comma)
  }

  /** The flags that characters stand for, each its own; the order does not matter. */
  function WithFlags(fl: Flags, flags: string): Flags {
    Added(fl, Has(flags, '-'), Has(flags, '+'), Has(flags, ' '), Has(flags, '#'), Has(flags, '\''))
  }

  /** What one flag character does. */
  lemma OneFlag(fl: Flags, c: char)
    requires FlagChar(c)
    ensures IsFlag(c as int) && c as int < 256
    ensures AddFlag(fl, c as int) == Added(fl, c == '-', c == '+', c == ' ', c == '#', c == '\'')
  {
    if c == '-' {
    } else if c == '+' {
    } else if c == ' ' {
    } else if c == '#' {
    } else {
    }
  }

  lemma AddedTwice(fl: Flags, a: bool, b: bool, c: bool, d: bool, e: bool, a': bool, b': bool, c': bool, d': bool, e': bool)
    ensures Added(Added(fl, a, b, c, d, e), a', b', c', d', e') == Added(fl, a || a', b || b', c || c', d || d', e || e')
  {
  }

  lemma AsciiFirst(s: string)
    requires s != [] && s[0] as int < 256
    ensures Ascii(s)[0] == s[0] as int
  {
  }

  lemma FirstFlag(fl: Flags, flags: string)
    requires flags != [] && FlagChar(flags[0])
    ensures WithFlags(AddFlag(fl, Ascii(flags)[0]), flags[1..]) == WithFlags(fl, flags) && IsFlag(Ascii(flags)[0])
  {
    hide Has, AddFlag, IsFlag, Ascii, FlagChar, Added;
    var c, r := flags[0], flags[1..];
    OneFlag(fl, c);
    AsciiFirst(flags);
    FirstOrLater(flags, '-');
    FirstOrLater(flags, '+');
    FirstOrLater(flags, ' ');
    FirstOrLater(flags, '#');
    FirstOrLater(flags, '\'');
    AddedTwice(fl, c == '-', c == '+', c == ' ', c == '#', c == '\'',
               Has(r, '-'), Has(r, '+'), Has(r, ' '), Has(r, '#'), Has(r, '\''));
  }

  lemma FirstOrLater(s: string, c: char)
    requires s != []
    ensures Has(s, c) <==> c == s[0] || Has(s[1..], c)
  {
    assert s == [s[0]] + s[1..];
  }

  lemma NoFlags(fl: Flags)
    ensures WithFlags(fl, []) == fl
  {
  }

  lemma {:induction false} FlagsRead(fmt: Text, f: nat, flags: string, fl: Flags)
    requires (forall c <- flags :: FlagChar(c)) && Stands(fmt, f, Ascii(flags)) && !IsFlag(fmt[f + |flags|])
    ensures InText(fmt, f)
    ensures FlagsAt(fmt, f, fl) ==
      if fmt[f + |flags|] == Ch('0') then (WithFlags(fl, flags).(zero := true), f + |flags| + 1)
      else (WithFlags(fl, flags), f + |flags|)
    decreases |flags|
  {
    hide InText, IsFlag, AddFlag, WithFlags, Ascii, Stands;
    StandsInText(fmt, f, Ascii(flags));
    InTextNext(fmt, f);
    if flags == [] {
      NoFlags(fl);
    } else {
      StandsFirst(fmt, f, Ascii(flags));
      AsciiRest(flags);
      assert flags[0] in flags;
      FirstFlag(fl, flags);
      FlagsRead(fmt, f + 1, flags[1..], AddFlag(fl, fmt[f]));
    }
  }

  lemma AsciiRest(s: string)
    requires s != []
    ensures Ascii(s)[1..] == Ascii(s[1..])
  {
  }

  lemma {:induction false} DigitsRead(fmt: Text, f: nat, d: Numerals.Digits)
    requires Numerals.AreDigits(d, 10) && f + |d| < |fmt| && InText(fmt, f + |d|) && !IsDigit(fmt[f + |d|])
    requires forall i :: 0 <= i < |d| ==> fmt[f + i] == Ch('0') + d[i]
    ensures InText(fmt, f) && DigitsAt(fmt, f) == d
    decreases |d|
  {
    if d != [] {
      assert fmt[f] == fmt[f + 0];
      forall i | 0 <= i < |d[1..]|
        ensures fmt[f + 1 + i] == Ch('0') + d[1..][i]
      {
        assert fmt[f + (i + 1)] == Ch('0') + d[i + 1];
      }
      DigitsRead(fmt, f + 1, d[1..]);
      DigitsStep(fmt, f);
      assert d == [d[0]] + d[1..];
    }
  }

  lemma NumeralRead(fmt: Text, f: nat, n: nat)
    requires Stands(fmt, f, InDecimal(n)) && !IsDigit(fmt[f + |InDecimal(n)|])
    ensures InText(fmt, f) && IsDigit(fmt[f]) && (n > 0 ==> fmt[f] != Ch('0'))
    ensures NumberAt(fmt, f) == n && |DigitsAt(fmt, f)| == |InDecimal(n)|
  {
    hide DigitsAt, Numerals.DigitsOf, Numerals.ValueOf, InText;
    var t := InDecimal(n);
    StandsFirst(fmt, f, t);
    StandsInText(fmt, f, t);
    var d := if n == 0 then [0] else Numerals.DigitsOf(n, 10);
    Numerals.WiderBase(d);
    assert t == Numerals.Chars(d);
    forall i | 0 <= i < |d|
      ensures fmt[f + i] == Ch('0') + d[i]
    {
      assert fmt[f + i] == fmt[f..f + |t|][i];
    }
    DigitsRead(fmt, f, d);
    NumeralValue(n, 10);
  }

  /** A width or precision is read back as it was written. */
  lemma AmountRead(fmt: Text, f: nat, a: Amount, args: seq<Arg>)
    requires a.Legal() && Stands(fmt, f, a.Written()) && !IsDigit(fmt[f + |a.Written()|])
    requires a.Absent? ==> fmt[f] != Ch('*')
    ensures InText(fmt, f) && SizeAt(fmt, f, a.Args() + args) == Some((a.Value(0), f + |a.Written()|, args))
  {
    hide InText, Numerals.ValueOf, DigitsAt;
    StandsInText(fmt, f, a.Written());
    match a
    case Absent =>
      DigitsRead(fmt, f, []);
      NoDigits();
      assert a.Args() + args == args;
    case Given(n) =>
      NumeralRead(fmt, f, n);
      assert a.Args() + args == args;
    case Star(v) =>
      StandsFirst(fmt, f, Ascii("*"));
      assert (a.Args() + args)[1..] == args;
  }

  lemma NoDigits()
    ensures Numerals.ValueOf([], 10) == 0
  {
  }

  /** What may stand behind width and precision: a letter, or the second '%'. */
  predicate EndChar(c: Byte) {
    c == Ch('%') || (Ch('A') <= c && c != Ch('_'))
  }

  lemma EndIsLetter(s: Spec)
    requires s.Legal()
    ensures EndChar(s.End()[0]) && |s.End()| == |s.size.Written()| + 1 && s.End()[|s.size.Written()|] == s.code as int
    ensures forall i :: 0 <= i < |s.End()| ==> s.End()[i] != 0
  {
  }

  /** No conversion is a size letter or one of the digits behind an I. */
  lemma CodeIsNoSize(c: char)
    requires CodeChar(c)
    ensures c as int < 256 && Ascii([c]) == [c as int] && NoSizeChar(c as int)
  {
  }

  ghost predicate SizeMeans(size: Size, c0: Byte, c1: Byte, c2: Byte, fl: Flags) {
    && SizeLetters(c0, c1, c2) == |size.Written()|
    && SizeFlags(fl, c0, c1, c2) == fl.(half := fl.half || size.H? || size.HH?, intmax := fl.intmax || size.Long())
  }

  /** No size letter, and no digit of a size. */
  predicate NoSizeChar(c: Byte) {
    && c != Ch('h') && c != Ch('l') && c != Ch('j') && c != Ch('z') && c != Ch('t') && c != Ch('I')
    && c != Ch('3') && c != Ch('6')
  }

  lemma ReadsNone(c: Byte, c1: Byte, c2: Byte, fl: Flags)
    requires NoSizeChar(c)
    ensures SizeMeans(NoSize, c, c1, c2, fl)
  {
  }

  lemma ReadsH(c: Byte, c2: Byte, fl: Flags)
    requires NoSizeChar(c)
    ensures SizeMeans(H, Ch('h'), c, c2, fl)
  {
  }

  lemma ReadsL(c: Byte, c2: Byte, fl: Flags)
    requires NoSizeChar(c)
    ensures SizeMeans(L, Ch('l'), c, c2, fl)
  {
  }

  lemma ReadsI(c: Byte, c2: Byte, fl: Flags)
    requires NoSizeChar(c)
    ensures SizeMeans(I, Ch('I'), c, c2, fl)
  {
  }

  lemma ReadsHH(c2: Byte, fl: Flags)
    ensures SizeMeans(HH, Ch('h'), Ch('h'), c2, fl)
  {
  }

  lemma ReadsLL(c2: Byte, fl: Flags)
    ensures SizeMeans(LL, Ch('l'), Ch('l'), c2, fl)
  {
  }

  lemma ReadsJ(c1: Byte, c2: Byte, fl: Flags)
    ensures SizeMeans(J, Ch('j'), c1, c2, fl)
  {
  }

  lemma ReadsZ(c1: Byte, c2: Byte, fl: Flags)
    ensures SizeMeans(Z, Ch('z'), c1, c2, fl)
  {
  }

  lemma ReadsT(c1: Byte, c2: Byte, fl: Flags)
    ensures SizeMeans(T, Ch('t'), c1, c2, fl)
  {
  }

  lemma ReadsI32(fl: Flags)
    ensures SizeMeans(I32, Ch('I'), Ch('3'), Ch('2'), fl)
  {
  }

  lemma ReadsI64(fl: Flags)
    ensures SizeMeans(I64, Ch('I'), Ch('6'), Ch('4'), fl)
  {
  }

  /** The size letters: how many they are, and whether they ask for 64 bits. */
  lemma SizeOf(size: Size, code: Byte, c0: Byte, c1: Byte, c2: Byte, fl: Flags)
    requires NoSizeChar(code)
    requires var e := size.Written() + [code];
      c0 == e[0] && (|e| > 1 ==> c1 == e[1]) && (|e| > 2 ==> c2 == e[2])
    ensures SizeMeans(size, c0, c1, c2, fl)
  {
    hide SizeMeans, NoSizeChar;
    match size
    case NoSize => ReadsNone(code, c1, c2, fl);
    case H => ReadsH(code, c2, fl);
    case L => ReadsL(code, c2, fl);
    case I => ReadsI(code, c2, fl);
    case HH => ReadsHH(c2, fl);
    case LL => ReadsLL(c2, fl);
    case J => ReadsJ(c1, c2, fl);
    case Z => ReadsZ(c1, c2, fl);
    case T => ReadsT(c1, c2, fl);
    case I32 => ReadsI32(fl);
    case I64 => ReadsI64(fl);
  }

  lemma SizeRead(fmt: Text, f: nat, s: Spec, fl: Flags)
    requires CodeChar(s.code) && Stands(fmt, f, s.End())
    ensures InText(fmt, f) && LengthAt(fmt, f, fl).1 == f + |s.size.Written()|
    ensures LengthAt(fmt, f, fl).0
      == fl.(half := fl.half || s.size.H? || s.size.HH?, intmax := fl.intmax || s.size.Long())
  {
    hide SizeLetters, SizeFlags, Size.Written, CodeChar, Ascii;
    StandsInText(fmt, f, s.End());
    forall i | 0 <= i < |s.End()|
      ensures At(fmt, f + i) == s.End()[i]
    {
      assert fmt[f + i] == fmt[f..f + |s.End()|][i];
    }
    CodeIsNoSize(s.code);
    assert At(fmt, f + 0) == s.End()[0];
    SizeOf(s.size, s.code as int, At(fmt, f), At(fmt, f + 1), At(fmt, f + 2), fl);
  }

  /** The first character of what follows the flags: no flag, and no zero. */
  predicate AfterFlags(c: Byte) {
    !IsFlag(c) && c != Ch('0')
  }

  lemma EndCharMeaning(c: Byte)
    requires EndChar(c)
    ensures AfterFlags(c) && !IsDigit(c) && c != Ch('*') && c != Ch('.') && c != 0
  {
  }

  lemma DotAndStar()
    ensures AfterFlags(Ch('.')) && AfterFlags(Ch('*')) && !IsDigit(Ch('.')) && Ch('.') != Ch('*')
    ensures Ascii(".") == [Ch('.')] && Ascii("*") == [Ch('*')] && Ascii("0") == [Ch('0')] && Ascii("%") == [Ch('%')]
  {
  }

  lemma DigitsAfterFlags(c: Byte)
    requires IsDigit(c) && c != Ch('0')
    ensures AfterFlags(c)
  {
  }

  /** What stands behind a precision or where it would be. */
  lemma PrecisionRead(fmt: Text, f: nat, s: Spec, args: seq<Arg>)
    requires s.Legal() && Stands(fmt, f, s.PrecisionText() + s.End())
    ensures InText(fmt, f) && Stands(fmt, f + |s.PrecisionText()|, s.End())
    ensures PrecisionAt(fmt, f, s.precision.Args() + args)
      == Some((s.precision.Value(-1), f + |s.PrecisionText()|, args))
    ensures AfterFlags(fmt[f]) && !IsDigit(fmt[f]) && fmt[f] != Ch('*') && fmt[f] != 0
  {
    hide InText, SizeAt, IsDigit, EndChar, Ascii, Spec.End, AfterFlags;
    StandsJoined(fmt, f, s.PrecisionText(), s.End());
    StandsInText(fmt, f, s.PrecisionText() + s.End());
    EndIsLetter(s);
    StandsFirst(fmt, f + |s.PrecisionText()|, s.End());
    EndCharMeaning(s.End()[0]);
    DotAndStar();
    if s.precision.Absent? {
      assert s.precision.Args() + args == args;
    } else {
      StandsJoined(fmt, f, Ascii("."), s.precision.Written());
      StandsFirst(fmt, f, Ascii("."));
      AmountRead(fmt, f + 1, s.precision, args);
    }
  }

  lemma WidthRead(fmt: Text, f: nat, s: Spec, args: seq<Arg>)
    requires s.Legal() && Stands(fmt, f, s.width.Written() + (s.PrecisionText() + s.End()))
    ensures InText(fmt, f) && Stands(fmt, f + |s.width.Written()|, s.PrecisionText() + s.End())
    ensures SizeAt(fmt, f, s.width.Args() + args) == Some((s.width.Value(0), f + |s.width.Written()|, args))
    ensures AfterFlags(fmt[f])
  {
    hide InText, SizeAt, PrecisionAt, IsDigit, Ascii, Spec.End, AfterFlags, Stands, Spec.PrecisionText, Amount.Args;
    hide InDecimal, NumberAt, DigitsAt;
    StandsJoined(fmt, f, s.width.Written(), s.PrecisionText() + s.End());
    PrecisionRead(fmt, f + |s.width.Written()|, s, []);
    AmountRead(fmt, f, s.width, args);
    DotAndStar();
    match s.width
    case Absent =>
    case Given(n) =>
      NumeralRead(fmt, f, n);
      DigitsAfterFlags(fmt[f]);
    case Star(_) =>
      StandsFirst(fmt, f, Ascii("*"));
  }

  /** A directive as it is written, behind its '%'. */
  lemma DirectiveRead(fmt: Text, f: nat, s: Spec, rest: seq<Arg>)
    requires s.Legal() && Stands(fmt, f, s.Written()[1..])
    ensures InText(fmt, f)
    ensures DirectiveAt(fmt, f, s.Args() + rest) == Some(Directive(s.Flags(), s.width.Value(0), s.precision.Value(-1),
      f + |s.Written()| - 2, rest))
    ensures fmt[f + |s.Written()| - 2] == s.code as int
  {
    hide InText, SizeAt, PrecisionAt, LengthAt, FlagsAt, IsDigit, IsFlag, Ascii, Spec.End, Size.Written, CodeChar;
    hide WithFlags, Amount.Written, Amount.Args, Stands, Spec.Start, Spec.PrecisionText, AfterFlags, Amount.Value;
    var tail := s.width.Written() + (s.PrecisionText() + s.End());
    WrittenParts(s);
    StandsInText(fmt, f, s.Written()[1..]);
    StandsJoined(fmt, f, s.Start(), tail);
    var f1 := f + |s.Start()|;
    WidthRead(fmt, f1, s, s.precision.Args() + rest);
    assert s.Args() + rest == s.width.Args() + (s.precision.Args() + rest);
    StartRead(fmt, f, s);
    var f2 := f1 + |s.width.Written()|;
    PrecisionRead(fmt, f2, s, rest);
    var f3 := f2 + |s.PrecisionText()|;
    SizeRead(fmt, f3, s, WithFlags(NO_FLAGS.(zero := s.zero), s.flags));
    FlagsDone(s);
    CodeStands(fmt, f3, s);
  }

  lemma WrittenParts(s: Spec)
    ensures s.Written()[1..] == s.Start() + (s.width.Written() + (s.PrecisionText() + s.End()))
    ensures s.Written()[0] == PERCENT && |s.Written()| == 1 + |s.Written()[1..]|
    ensures |s.End()| == |s.size.Written()| + 1
  {
  }

  lemma FlagsDone(s: Spec)
    ensures var fl := WithFlags(NO_FLAGS.(zero := s.zero), s.flags);
      s.Flags() == fl.(half := fl.half || s.size.H? || s.size.HH?, intmax := fl.intmax || s.size.Long())
  {
  }

  lemma CodeStands(fmt: Text, f: nat, s: Spec)
    requires s.Legal() && Stands(fmt, f, s.End())
    ensures f + |s.size.Written()| < |fmt| && fmt[f + |s.size.Written()|] == s.code as int
  {
    EndIsLetter(s);
    assert fmt[f + |s.size.Written()|] == fmt[f..f + |s.End()|][|s.size.Written()|];
  }

  lemma StartRead(fmt: Text, f: nat, s: Spec)
    requires s.Legal() && Stands(fmt, f, s.Start()) && AfterFlags(fmt[f + |s.Start()|])
    ensures InText(fmt, f)
    ensures FlagsAt(fmt, f, NO_FLAGS) == (WithFlags(NO_FLAGS.(zero := s.zero), s.flags), f + |s.Start()|)
  {
    hide InText, FlagsAt, Ascii, IsFlag, Stands, WithFlags, FlagChar;
    DotAndStar();
    FlagsThenZero(s);
    StandsJoined(fmt, f, Ascii(s.flags), if s.zero then Ascii("0") else []);
    if s.zero {
      StandsFirst(fmt, f + |s.flags|, Ascii("0"));
    }
    ZeroIsNoFlag();
    FlagsRead(fmt, f, s.flags, NO_FLAGS);
  }

  lemma FlagsThenZero(s: Spec)
    ensures WithFlags(NO_FLAGS.(zero := s.zero), s.flags) == WithFlags(NO_FLAGS, s.flags).(zero := s.zero)
  {
  }

  lemma ZeroIsNoFlag()
    ensures !IsFlag(Ch('0'))
  {
  }
}

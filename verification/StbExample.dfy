// Formats with what they show, character by character (rizzos/lib/stb_sprintf.h:293-307,
// 571-613, 978-1169).
module StbExamples {
  import opened Options
  import opened StbLiterals
  import opened StbFormats
  import opened StbDirectives
  import opened StbTexts
  import Numerals

  /** The format and its arguments show the text. */
  ghost predicate Prints(format: string, args: seq<Arg>, text: string) {
    InText(Ascii(format) + [0], 0) && Render(Ascii(format) + [0], 0, args) == Some(Ascii(text))
  }

  lemma ByDirective(format: string, s: Spec, a: seq<Arg>, text: string)
    requires s.Legal() && Expected(s, a) == Some(Ascii(text)) && s.Written() == Ascii(format)
    ensures Prints(format, s.Args() + a, text)
  {
    hide Render, Expected, InText, Spec.Written, Spec.Args, Spec.Legal;
    OneDirective(s, a);
  }

  /** A directive without size letters. */
  function Plainly(flags: string, zero: bool, width: Amount, precision: Amount, code: char): Spec {
    Spec(flags, zero, width, precision, NoSize, code)
  }

  /** The numeral with the digits x, spelled out. */
  lemma Spells(x: Numerals.Digits, b: Numerals.Base, upper: bool, text: string)
    requires Numerals.AreDigits(x, b) && b <= 16 && x != [] && x[0] > 0 && |x| == |text|
    requires forall i :: 0 <= i < |x| ==> HexChar(x[i], upper) == text[i] as int % 256
    ensures InBase(Numerals.ValueOf(x, b), b, upper) == Ascii(text)
  {
    hide Numerals.ValueOf, HexChar;
    Numerals.DigitsOfValue(x, b);
    assert Numerals.DigitsOf(Numerals.ValueOf(x, b), b) == x;
  }

  /** A decimal conversion with its digits and its layout. */
  lemma ByDecimal(format: string, s: Spec, v: int, digits: string, text: string)
    requires s.Legal() && s.Written() == Ascii(format) && s.Args() == [] && s.size == NoSize
    requires s.Commas() ==> !s.zero && s.precision.Absent?
    requires ((s.code == 'd' || s.code == 'i') && -0x8000_0000 <= v < 0x8000_0000)
      || (s.code == 'u' && 0 <= v < 0x1_0000_0000)
    requires InDecimals(if v < 0 then -v else v, s.Commas()) == Ascii(digits)
    requires Laid(s.Left(), s.zero, s.width.Value(0), s.precision.Value(0), Sign(s.flags, v < 0), Ascii(digits))
      == Ascii(text)
    ensures Prints(format, [Int(v)], text)
  {
    hide Laid, InDecimals, Sign, Spec.Written, Spec.Legal, Render;
    assert [] + [Int(v)] == [Int(v)];
    ByDirective(format, s, [Int(v)], text);
  }

  /** The same in another base, without a precision. */
  lemma ByRadix(format: string, s: Spec, v: nat, prefix: string, digits: string, text: string)
    requires s.Legal() && s.Written() == Ascii(format) && s.Args() == [] && s.size == NoSize && IsRadixCode(s.code)
    requires !s.zero && s.precision.Absent? && 0 < v < 0x1_0000_0000
    requires prefix == if '#' in s.flags then PrefixOf(s.code) else ""
    requires RadixDigits(s.code, s.Commas(), -1, v) == Ascii(digits)
    requires Laid(s.Left(), false, s.width.Value(0), 0, Ascii(prefix), Ascii(digits)) == Ascii(text)
    ensures Prints(format, [Int(v)], text)
  {
    hide Laid, RadixDigits, PrefixOf, Spec.Written, Spec.Legal, Render;
    assert [] + [Int(v)] == [Int(v)];
    assert Ascii("") == [];
    ByDirective(format, s, [Int(v)], text);
  }

  lemma MinusFive()
    ensures Prints("%d", [Int(-5)], "-5")
  {
    hide Render, InBase;
    var s := Plainly("", false, Absent, Absent, 'd');
    Spells([5], 10, true, "5");
    assert Numerals.ValueOf([5], 10) == 5;
    assert s.Written() == Ascii("%d");
    assert Laid(false, false, 0, 0, Ascii("-"), Ascii("5")) == Ascii("-5");
    ByDecimal("%d", s, -5, "5", "-5");
  }

  lemma One()
    ensures Numerals.ValueOf([5], 10) == 5 && InBase(5, 10, true) == Ascii("5")
  {
    hide InBase;
    assert Numerals.ValueOf([5], 10) == 5;
    Spells([5], 10, true, "5");
  }

  lemma PlusFive()
    ensures Prints("%+d", [Int(5)], "+5")
  {
    hide Render, InBase;
    One();
    var s := Plainly("+", false, Absent, Absent, 'd');
    assert s.Written() == Ascii("%+d");
    assert Laid(false, false, 0, 0, Ascii("+"), Ascii("5")) == Ascii("+5");
    ByDecimal("%+d", s, 5, "5", "+5");
  }

  /** With both flags the space wins. */
  lemma SpaceBeatsPlus()
    ensures Prints("%+ d", [Int(5)], " 5")
  {
    hide Render, InBase;
    One();
    var s := Plainly("+ ", false, Absent, Absent, 'd');
    assert s.Written() == Ascii("%+ d");
    assert Laid(false, false, 0, 0, Ascii(" "), Ascii("5")) == Ascii(" 5");
    assert s.flags[1] == ' ';
    ByDecimal("%+ d", s, 5, "5", " 5");
  }

  lemma WrittenFour()
    ensures Given(4).Written() == Ascii("4") && Given(3).Written() == Ascii("3") && Absent.Written() == []
  {
    hide InBase;
    DecimalInBase(4);
    DecimalInBase(3);
    assert Numerals.ValueOf([4], 10) == 4 && Numerals.ValueOf([3], 10) == 3;
    Spells([4], 10, true, "4");
    Spells([3], 10, true, "3");
  }

  lemma RightJustified()
    ensures Prints("%4d", [Int(-5)], "  -5")
  {
    hide Render, InBase, Amount.Written;
    One();
    WrittenFour();
    var s := Plainly("", false, Given(4), Absent, 'd');
    assert s.Written() == Ascii("%4d");
    assert Laid(false, false, 4, 0, Ascii("-"), Ascii("5")) == Ascii("  -5");
    ByDecimal("%4d", s, -5, "5", "  -5");
  }

  lemma LeftJustified()
    ensures Prints("%-4d", [Int(-5)], "-5  ")
  {
    hide Render, InBase, Amount.Written;
    One();
    WrittenFour();
    var s := Plainly("-", false, Given(4), Absent, 'd');
    assert s.Written() == Ascii("%-4d");
    assert Laid(true, false, 4, 0, Ascii("-"), Ascii("5")) == Ascii("-5  ");
    ByDecimal("%-4d", s, -5, "5", "-5  ");
  }

  lemma ZeroPadded()
    ensures Prints("%04d", [Int(-5)], "-005")
  {
    hide Render, InBase, Amount.Written;
    One();
    WrittenFour();
    var s := Plainly("", true, Given(4), Absent, 'd');
    assert s.Written() == Ascii("%04d");
    assert Laid(false, true, 4, 0, Ascii("-"), Ascii("5")) == Ascii("-005");
    ByDecimal("%04d", s, -5, "5", "-005");
  }

  lemma ThreeDigits()
    ensures Prints("%.3i", [Int(-5)], "-005")
  {
    hide Render, InBase, Amount.Written;
    One();
    WrittenFour();
    var s := Plainly("", false, Absent, Given(3), 'i');
    assert s.PrecisionText() == Ascii(".3");
    assert s.Written() == Ascii("%.3i");
    assert Laid(false, false, 0, 3, Ascii("-"), Ascii("5")) == Ascii("-005");
    ByDecimal("%.3i", s, -5, "5", "-005");
  }

  /** A star takes its width from the arguments. */
  lemma StarWidth()
    ensures Prints("%*d", [Int(4), Int(-5)], "  -5")
  {
    hide Render, InBase;
    One();
    var s := Plainly("", false, Star(4), Absent, 'd');
    assert s.Written() == Ascii("%*d");
    assert Laid(false, false, 4, 0, Ascii("-"), Ascii("5")) == Ascii("  -5");
    assert s.Args() + [Int(-5)] == [Int(4), Int(-5)];
    ByDirective("%*d", s, [Int(-5)], "  -5");
  }

  lemma WithGroups()
    ensures Prints("%'u", [Int(1234567)], "1,234,567")
  {
    hide Render, InBase, Numerals.Grouped;
    var s := Plainly("'", false, Absent, Absent, 'u');
    SevenDigits();
    assert s.Written() == Ascii("%'u");
    GroupedSeven();
    assert InDecimals(1234567, true) == Ascii("1,234,567");
    assert Laid(false, false, 0, 0, [], Ascii("1,234,567")) == Ascii("1,234,567");
    assert s.flags[0] == '\'';
    ByDecimal("%'u", s, 1234567, "1,234,567", "1,234,567");
  }

  lemma SevenDigits()
    ensures InBase(1234567, 10, true) == Ascii("1234567")
  {
    hide InBase;
    hide Numerals.ValueOf;
    NoDigits();
    Numerals.ValueOfMore([], 1, 10);
    Numerals.ValueOfMore([1], 2, 10);
    Numerals.ValueOfMore([1, 2], 3, 10);
    Numerals.ValueOfMore([1, 2, 3], 4, 10);
    Numerals.ValueOfMore([1, 2, 3, 4], 5, 10);
    Numerals.ValueOfMore([1, 2, 3, 4, 5], 6, 10);
    Numerals.ValueOfMore([1, 2, 3, 4, 5, 6], 7, 10);
    assert [] + [1] == [1] && [1] + [2] == [1, 2] && [1, 2] + [3] == [1, 2, 3] && [1, 2, 3] + [4] == [1, 2, 3, 4];
    assert [1, 2, 3, 4] + [5] == [1, 2, 3, 4, 5] && [1, 2, 3, 4, 5] + [6] == [1, 2, 3, 4, 5, 6];
    assert [1, 2, 3, 4, 5, 6] + [7] == [1, 2, 3, 4, 5, 6, 7];
    Spells([1, 2, 3, 4, 5, 6, 7], 10, true, "1234567");
  }

  lemma GroupedSeven()
    ensures Numerals.WithCommas(Ascii("1234567")) == Ascii("1,234,567")
  {
    var t := Ascii("1234567");
    assert t[..4][..1] == Ascii("1") && t[..4][1..] == Ascii("234") && t[4..] == Ascii("567");
    Numerals.FewGrouped(Ascii("1"), 3);
    Numerals.GroupedSplit(t[..4], 3);
    Numerals.GroupedSplit(t, 3);
  }

  // ----- other conversions

  lemma TwoFF()
    ensures InBase(255, 16, false) == Ascii("ff") && InBase(255, 16, true) == Ascii("FF")
  {
    hide InBase;
    assert [15, 15][..1] == [15];
    assert Numerals.ValueOf([15], 16) == 15 && Numerals.ValueOf([15, 15], 16) == 255;
    Spells([15, 15], 16, false, "ff");
    Spells([15, 15], 16, true, "FF");
  }

  lemma SmallHex()
    ensures Prints("%x", [Int(255)], "ff")
  {
    hide Render, InBase;
    TwoFF();
    var s := Plainly("", false, Absent, Absent, 'x');
    assert s.Written() == Ascii("%x");
    assert AtLeast(-1, Ascii("ff")) == Ascii("ff") && Laid(false, false, 0, 0, Ascii(""), Ascii("ff")) == Ascii("ff");
    ByRadix("%x", s, 255, "", "ff", "ff");
  }

  lemma PrefixedHex()
    ensures Prints("%#x", [Int(255)], "0xff")
  {
    hide Render, InBase;
    TwoFF();
    var s := Plainly("#", false, Absent, Absent, 'x');
    assert s.Written() == Ascii("%#x");
    assert s.flags[0] == '#';
    assert AtLeast(-1, Ascii("ff")) == Ascii("ff") && Laid(false, false, 0, 0, Ascii("0x"), Ascii("ff")) == Ascii("0xff");
    ByRadix("%#x", s, 255, "0x", "ff", "0xff");
  }

  /** Hexadecimal digits come in groups of four. */
  lemma GroupedHex()
    ensures Prints("%'x", [Int(0x12345)], "1,2345")
  {
    hide Render, InBase, Numerals.Grouped;
    FiveDigits();
    var s := Plainly("'", false, Absent, Absent, 'x');
    assert s.Written() == Ascii("%'x");
    assert s.flags[0] == '\'';
    GroupedFive();
    assert Laid(false, false, 0, 0, Ascii(""), Ascii("1,2345")) == Ascii("1,2345");
    ByRadix("%'x", s, 0x12345, "", "1,2345", "1,2345");
  }

  lemma GroupedFive()
    ensures Numerals.Grouped(Ascii("12345"), 4) == Ascii("1,2345")
  {
    var t := Ascii("12345");
    assert t[..1] == Ascii("1") && t[1..] == Ascii("2345");
    Numerals.GroupedSplit(t, 4);
    Numerals.FewGrouped(t[..1], 4);
  }

  lemma FiveDigits()
    ensures InBase(0x12345, 16, false) == Ascii("12345")
  {
    hide InBase, Numerals.ValueOf;
    assert Numerals.ValueOf([], 16) == 0 by { NoDigitsInHex(); }
    Numerals.ValueOfMore([], 1, 16);
    Numerals.ValueOfMore([1], 2, 16);
    Numerals.ValueOfMore([1, 2], 3, 16);
    Numerals.ValueOfMore([1, 2, 3], 4, 16);
    Numerals.ValueOfMore([1, 2, 3, 4], 5, 16);
    assert [] + [1] == [1] && [1] + [2] == [1, 2] && [1, 2] + [3] == [1, 2, 3] && [1, 2, 3] + [4] == [1, 2, 3, 4];
    assert [1, 2, 3, 4] + [5] == [1, 2, 3, 4, 5];
    Spells([1, 2, 3, 4, 5], 16, false, "12345");
  }

  lemma NoDigitsInHex()
    ensures Numerals.ValueOf([], 16) == 0
  {
  }

  lemma CapitalHex()
    ensures Prints("%#X", [Int(255)], "0XFF")
  {
    hide Render, InBase;
    TwoFF();
    var s := Plainly("#", false, Absent, Absent, 'X');
    assert s.Written() == Ascii("%#X");
    assert s.flags[0] == '#';
    assert AtLeast(-1, Ascii("FF")) == Ascii("FF") && Laid(false, false, 0, 0, Ascii("0X"), Ascii("FF")) == Ascii("0XFF");
    ByRadix("%#X", s, 255, "0X", "FF", "0XFF");
  }

  lemma EightAndFive()
    ensures InBase(8, 8, false) == Ascii("10") && InBase(5, 2, false) == Ascii("101")
  {
    hide InBase;
    assert [1, 0][..1] == [1] && [1, 0, 1][..2] == [1, 0];
    assert Numerals.ValueOf([1], 8) == 1 && Numerals.ValueOf([1, 0], 8) == 8;
    assert Numerals.ValueOf([1], 2) == 1 && Numerals.ValueOf([1, 0], 2) == 2 && Numerals.ValueOf([1, 0, 1], 2) == 5;
    Spells([1, 0], 8, false, "10");
    Spells([1, 0, 1], 2, false, "101");
  }

  lemma OctalWithZero()
    ensures Prints("%#o", [Int(8)], "010")
  {
    hide Render, InBase;
    EightAndFive();
    var s := Plainly("#", false, Absent, Absent, 'o');
    assert s.Written() == Ascii("%#o");
    assert s.flags[0] == '#';
    assert AtLeast(-1, Ascii("10")) == Ascii("10") && Laid(false, false, 0, 0, Ascii("0"), Ascii("10")) == Ascii("010");
    ByRadix("%#o", s, 8, "0", "10", "010");
  }

  lemma BinaryFive()
    ensures Prints("%#b", [Int(5)], "0b101")
  {
    hide Render, InBase;
    EightAndFive();
    var s := Plainly("#", false, Absent, Absent, 'b');
    assert s.Written() == Ascii("%#b");
    assert s.flags[0] == '#';
    assert AtLeast(-1, Ascii("101")) == Ascii("101");
    assert Laid(false, false, 0, 0, Ascii("0b"), Ascii("101")) == Ascii("0b101");
    ByRadix("%#b", s, 5, "0b", "101", "0b101");
  }

  lemma NullString()
    ensures Prints("%s", [Null], "null")
  {
    hide Render, InBase;
    var s := Plainly("", false, Absent, Absent, 's');
    assert s.Written() == Ascii("%s");
    NullIsShown();
    assert Laid(false, false, 0, 0, [], Ascii("null")) == Ascii("null");
    ByDirective("%s", s, [Null], "null");
    assert s.Args() + [Null] == [Null];
  }

  lemma Letter()
    ensures Prints("%c", [Int(65)], "A")
  {
    hide Render, InBase;
    var s := Plainly("", false, Absent, Absent, 'c');
    assert s.Written() == Ascii("%c");
    assert Laid(false, false, 0, 0, [], [65]) == Ascii("A");
    ByDirective("%c", s, [Int(65)], "A");
    assert s.Args() + [Int(65)] == [Int(65)];
  }

  function Five(): Piece {
    Directed(Plainly("", false, Absent, Absent, 'd'), [Int(5)])
  }

  function Percent(): Piece {
    Directed(Plainly("", false, Absent, Absent, '%'), [])
  }

  lemma FivePiece()
    ensures var p := Five(); p.Legal() && p.Written() == Ascii("%d") && p.Args() == [Int(5)] && p.Shows() == Ascii("5")
  {
    hide InBase;
    One();
    assert Laid(false, false, 0, 0, [], Ascii("5")) == Ascii("5");
  }

  lemma PercentPiece()
    ensures var p := Percent(); p.Legal() && p.Written() == Ascii("%%") && p.Args() == [] && p.Shows() == Ascii("%")
  {
  }

  lemma UpPiece()
    ensures var p := Plain(Ascii("up ")); p.Legal() && p.Written() == Ascii("up ") == p.Shows() && p.Args() == []
  {
  }

  /** Plain text, a number, a percent sign. */
  lemma Percentage()
    ensures Prints("up %d%%", [Int(5)], "up 5%")
  {
    FivePiece();
    PercentPiece();
    UpPiece();
    hide Render, InText, Piece.Legal, Piece.Written, Piece.Shows, Piece.Args, Five, Percent, FormatOf, ArgsOf, TextOf;
    var x, y, z := Plain(Ascii("up ")), Five(), Percent();
    NoPieces();
    PieceInFront(z, []);
    PieceInFront(y, [z]);
    PieceInFront(x, [y, z]);
    assert [z] + [] == [z] && [y] + [z] == [y, z] && [x] + [y, z] == [x, y, z];
    JoinedTexts();
    FormatShown(Ascii("up %d%%") + [0], 0, [x, y, z]);
  }

  lemma NoPieces()
    ensures FormatOf([]) == [0] && ArgsOf([]) == [] && TextOf([]) == []
  {
  }

  lemma JoinedTexts()
    ensures Ascii("up ") + (Ascii("%d") + (Ascii("%%") + [0])) == Ascii("up %d%%") + [0]
    ensures (Ascii("up %d%%") + [0])[0..] == Ascii("up %d%%") + [0]
    ensures Ascii("up ") + (Ascii("5") + (Ascii("%") + [])) == Ascii("up 5%")
    ensures [] + ([Int(5)] + ([] + [])) == [Int(5)]
  {
  }

  lemma PieceInFront(p: Piece, rest: seq<Piece>)
    ensures FormatOf([p] + rest) == p.Written() + FormatOf(rest) && ArgsOf([p] + rest) == p.Args() + ArgsOf(rest)
    ensures p.Legal() && (forall q <- rest :: q.Legal()) ==>
      (forall q <- [p] + rest :: q.Legal()) && TextOf([p] + rest) == p.Shows() + TextOf(rest)
  {
    assert ([p] + rest)[1..] == rest;
  }
}

// What formats show, said by way of their characters and of reading the text back, and
// not by way of the functions that the code computes (rizzos/lib/stb_sprintf.h:293-307,
// 571-613, 978-1169).
module StbTexts {
  import opened Options
  import opened Bits
  import opened StbWords
  import opened StbScans
  import opened StbOutputs
  import opened StbFields
  import opened StbLiterals
  import opened StbRadixes
  import opened StbFormats
  import opened StbDirectives
  import Numerals
  import NumberTexts

  // ----- layout

  function Zeros(n: int): Text {
    seq(if n < 0 then 0 else n, _ => '0' as int)
  }

  function Blanks(n: int): Text {
    seq(if n < 0 then 0 else n, _ => ' ' as int)
  }

  /** At least `precision` digits behind the sign, in at least `width` places. */
  function Laid(left: bool, zero: bool, width: int, precision: int, sign: Text, digits: Text): Text {
    var z := precision - |digits|;
    var room := width - |sign| - (if z > 0 then precision else |digits|);
    if left then sign + Zeros(z) + digits + Blanks(room)
    else if zero then sign + Zeros(if room > z then room else z) + digits
    else Blanks(room) + sign + Zeros(z) + digits
  }

  /** A field without a tail, and without commas in its padding, is laid out like that. */
  lemma FieldLaid(x: Field)
    requires x.tz == 0 && x.tail == [] && (x.comma ==> !x.zero && (!x.left || x.pr <= |x.text|))
    ensures x.Shown() == Laid(x.left, x.zero, x.fw, x.pr, x.lead, x.text)
  {
    assert x.ZeroText() == Zeros(x.Zeros());
    hide Field.ZeroText;
    if x.left {
      assert x.After() == Blanks(x.Spaces()) && x.Before() == [];
    } else {
      assert x.Before() == Blanks(x.Spaces()) && x.After() == [];
    }
    JoinPieces(x.Before(), x.lead, x.ZeroText(), x.text, x.After());
  }

  lemma JoinPieces(a: Text, b: Text, c: Text, d: Text, e: Text)
    ensures a + b + c + d + Repeat('0' as int, 0) + [] + e == a + b + c + d + e
    ensures a == [] ==> a + b == b
    ensures e == [] ==> a + b + c + d + e == a + b + c + d
  {
  }

  // ----- numerals

  function HexChars(upper: bool): string {
    if upper then "0123456789ABCDEF" else "0123456789abcdef"
  }

  /** The numeral of n in a base, from characters. */
  function InBase(n: nat, b: Numerals.Base, upper: bool): (t: Text)
    requires b <= 16
    ensures |t| > 0
  {
    var d := if n == 0 then [0] else Numerals.DigitsOf(n, b);
    seq(|d|, i requires 0 <= i < |d| => HexChar(d[i], upper))
  }

  function HexChar(d: nat, upper: bool): Byte
    requires d < 16
  {
    HexChars(upper)[d] as int % 256
  }

  lemma GlyphIsHexChar(d: nat, upper: bool)
    requires d < 16
    ensures Glyph(d, upper) == HexChar(d, upper)
    ensures d < 10 || upper ==> Numerals.DigitChar(d) == HexChar(d, upper)
  {
    if d < 4 {
    } else if d < 8 {
    } else if d < 12 {
    } else {
    }
  }

  lemma DecimalInBase(n: nat)
    ensures Numerals.Decimal(n) == InBase(n, 10, true)
  {
    hide HexChar;
    var d := if n == 0 then [0] else Numerals.DigitsOf(n, 10);
    Numerals.WiderBase(d);
    assert Numerals.Decimal(n) == Numerals.Chars(d);
    forall i | 0 <= i < |d|
      ensures Numerals.DigitChar(d[i]) == HexChar(d[i], true)
    {
      GlyphIsHexChar(d[i], true);
    }
  }

  lemma GlyphsInBase(n: nat, r: Radix, upper: bool)
    ensures Numerals.AreDigits(Numeral(n, r.Base()), 16)
    ensures Glyphs(Numeral(n, r.Base()), upper) == InBase(n, r.Base(), upper)
  {
    hide Glyph, HexChar;
    var d := Numeral(n, r.Base());
    WiderStill(d, r.Base());
    forall i | 0 <= i < |d|
      ensures Glyph(d[i], upper) == HexChar(d[i], upper)
    {
      GlyphIsHexChar(d[i], upper);
    }
  }

  // ----- what a directive shows

  /** The sign of a number: one character at most. */
  function Sign(flags: string, negative: bool): Text {
    if negative then Ascii("-")
    else if ' ' in flags then Ascii(" ")
    else if '+' in flags then Ascii("+")
    else []
  }

  function InDecimals(n: nat, commas: bool): (t: seq<nat>) {
    if commas then Numerals.WithCommas(InBase(n, 10, true)) else InBase(n, 10, true)
  }

  /** The values of a signed and of an unsigned argument. */
  predicate SignedArg(v: int, long: bool) {
    if long then -0x8000_0000_0000_0000 <= v < 0x8000_0000_0000_0000 else -0x8000_0000 <= v < 0x8000_0000
  }

  predicate UnsignedArg(v: int, long: bool) {
    0 <= v < if long then 0x1_0000_0000_0000_0000 else 0x1_0000_0000
  }

  /** The base of a conversion, and what `#` puts in front of a number that is not zero. */
  function BaseOf(code: char): Numerals.Base {
    if code == 'b' || code == 'B' then 2 else if code == 'o' then 8 else 16
  }

  predicate IsRadixCode(code: char) {
    code == 'x' || code == 'X' || code == 'o' || code == 'b' || code == 'B'
  }

  predicate IsCapital(code: char) {
    code == 'X' || code == 'B'
  }

  /** Digits with zeros in front until there are n. */
  function AtLeast(n: int, digits: Text): Text {
    Zeros(n - |digits|) + digits
  }

  /** The digits between two commas. */
  function GroupOf(code: char): nat {
    if code == 'b' || code == 'B' then 8 else if code == 'o' then 3 else 4
  }

  /** The digits of a radix conversion: with commas, or with zeros up to the precision. */
  function RadixDigits(code: char, commas: bool, p: int, v: nat): Text {
    var t := InBase(v, BaseOf(code), IsCapital(code));
    Numerals.GroupedBytes(t, GroupOf(code));
    if commas then Numerals.Grouped(t, GroupOf(code)) else AtLeast(p, t)
  }

  function PrefixOf(code: char): string {
    match code
    case 'x' => "0x"
    case 'X' => "0X"
    case 'o' => "0"
    case 'b' => "0b"
    case 'B' => "0B"
    case _ => "0x"
  }

  /**
   * What the directive s makes of its argument, where that is promised here: no text for a
   * comma flag together with padding zeros, which PaddedCommas is about, and for a comma
   * flag on pointers, characters and strings.
   */
  function Expected(s: Spec, a: seq<Arg>): Option<Text> {
    if s.code == '%' then (if a == [] then Some(Ascii("%")) else None)
    else if |a| != 1 then None
    else
      match a[0]
      case Int(v) => ExpectedNumber(s, v)
      case Str(t) =>
        if s.code == 's' && !s.Commas() && Readable(t, Limit(s))
        then Some(Laid(s.Left(), s.zero, s.width.Value(0), 0, [], t.bytes[..Length(t.bytes, Limit(s))])) else None
      case Null =>
        if s.code == 's' && !s.Commas()
        then Some(Laid(s.Left(), s.zero, s.width.Value(0), 0, [], Ascii("null")[..if Limit(s) < 4 then Limit(s) else 4]))
        else None
  }

  /** The precision bounds the length of a string; without one the bound is 2^32 - 1. */
  function Limit(s: Spec): nat {
    if s.precision.Value(-1) < 0 then 0xffff_ffff else s.precision.Value(-1)
  }

  function ExpectedNumber(s: Spec, v: int): Option<Text> {
    var w, p := s.width.Value(0), s.precision.Value(-1);
    match s.code
    case 'c' => if s.Commas() then None else Some(Laid(s.Left(), s.zero, w, 0, [], [v % 256]))
    case 'd' => ExpectedDecimal(s, SignedArg(v, s.size.Long()), v)
    case 'i' => ExpectedDecimal(s, SignedArg(v, s.size.Long()), v)
    case 'u' => ExpectedDecimal(s, UnsignedArg(v, s.size.Long()), v)
    case 'p' =>
      if s.Commas() || !UnsignedArg(v, true) then None
      else
        var prefix := if '#' in s.flags && v > 0 then Ascii(PrefixOf('p')) else [];
        Some(Laid(s.Left(), false, w, 0, prefix, RadixDigits('p', false, 16, v)))
    case _ =>
      if !IsRadixCode(s.code) || !UnsignedArg(v, s.size.Long()) || p >= 512 then None
      else if s.Commas() && (s.zero || !s.precision.Absent?) then None
      else if v == 0 && p == 0 then Some(Laid(s.Left(), s.zero, w, 0, [], []))
      else
        var prefix := if '#' in s.flags && v > 0 then Ascii(PrefixOf(s.code)) else [];
        Some(Laid(s.Left(), s.zero, w, 0, prefix, RadixDigits(s.code, s.Commas(), p, v)))
  }

  function ExpectedDecimal(s: Spec, inRange: bool, v: int): Option<Text> {
    if !inRange || (s.Commas() && (s.zero || !s.precision.Absent?)) then None
    else
      var n := if v < 0 then -v else v;
      DecimalBytes(n, s.Commas());
      Some(Laid(s.Left(), s.zero, s.width.Value(0), s.precision.Value(0), Sign(s.flags, v < 0), InDecimals(n, s.Commas())))
  }

  lemma DecimalBytes(n: nat, commas: bool)
    ensures forall i :: 0 <= i < |InDecimals(n, commas)| ==> InDecimals(n, commas)[i] < 256
  {
    hide InBase;
    if commas {
      Numerals.GroupedBytes(InBase(n, 10, true), 3);
    }
  }

  // ----- the code shows it

  /** The directive that is read from s, with its argument still to come. */
  function Parsed(s: Spec, code: nat, args: seq<Arg>): Directive {
    Directive(s.Flags(), s.width.Value(0), s.precision.Value(-1), code, args)
  }

  ghost predicate ShowsField(s: Spec, code: nat, a: seq<Arg>, rest: seq<Arg>, t: Text)
    requires s.Legal()
  {
    var r := FieldOf(s.code as int, Parsed(s, code, a + rest));
    r.Some? && r.value.0.Shown() == t && r.value.1 == rest
  }

  lemma FlagsMeaning(s: Spec)
    ensures var fl := s.Flags();
      && fl.left == s.Left() && fl.zero == s.zero && fl.comma == s.Commas() && fl.intmax == s.size.Long()
      && fl.plus == ('+' in s.flags) && fl.space == (' ' in s.flags) && fl.alt == ('#' in s.flags) && fl.metric == 0
  {
  }

  lemma SignMeaning(s: Spec, negative: bool)
    ensures LeadSign(s.Flags(), negative) == Sign(s.flags, negative)
  {
    FlagsMeaning(s);
  }

  lemma MagnitudeMeaning(v: int, long: bool)
    ensures SignedArg(v, long) ==> (
      IntNegative(v, long, false) == (v < 0) && IntMagnitude(v, long, false) == if v < 0 then -v else v)
    ensures UnsignedArg(v, long) ==> (
      !IntNegative(v, long, true) && IntMagnitude(v, long, true) == v && Unsigned(v, long) == v)
  {
    if long {
    } else {
    }
  }

  lemma DecimalText(n: nat, commas: bool)
    ensures NumberOf(n, commas) == InDecimals(n, commas)
  {
    hide InBase, Numerals.Decimal, Numerals.Grouped;
    DecimalInBase(n);
  }

  lemma DecimalShown(s: Spec, code: nat, v: int, rest: seq<Arg>)
    requires s.Legal() && (s.code == 'd' || s.code == 'i' || s.code == 'u') && ExpectedNumber(s, v).Some?
    ensures ShowsField(s, code, [Int(v)], rest, ExpectedNumber(s, v).value)
  {
    hide LeadSign, Sign, IntNegative, IntMagnitude, NumberOf, InDecimals, Laid, Spec.Flags, Field.Shown;
    var unsigned := s.code == 'u';
    FlagsMeaning(s);
    MagnitudeMeaning(v, s.size.Long());
    SignMeaning(s, v < 0);
    var n := if v < 0 then -v else v;
    DecimalText(n, s.Commas());
    assert ([Int(v)] + rest)[0] == Int(v) && ([Int(v)] + rest)[1..] == rest;
    var x := FieldOf(s.code as int, Parsed(s, code, [Int(v)] + rest)).value.0;
    FieldLaid(x);
    SamePrecision(s, x.lead, x.text);
  }

  /** A negative precision counts as none. */
  lemma SamePrecision(s: Spec, sign: Text, digits: Text)
    ensures var p := s.precision.Value(-1);
      Laid(s.Left(), s.zero, s.width.Value(0), if p < 0 then 0 else p, sign, digits)
        == Laid(s.Left(), s.zero, s.width.Value(0), s.precision.Value(0), sign, digits)
  {
  }

  lemma ZeroGlyphs(z: nat, x: Numerals.Digits, upper: bool)
    requires Numerals.AreDigits(x, 16)
    ensures Numerals.AreDigits(ZeroDigits(z) + x, 16)
    ensures Glyphs(ZeroDigits(z) + x, upper) == Zeros(z) + Glyphs(x, upper)
  {
    var y := ZeroDigits(z) + x;
    forall i | 0 <= i < |y|
      ensures Glyph(y[i], upper) == (Zeros(z) + Glyphs(x, upper))[i]
    {
      if i >= z {
        assert y[i] == x[i - z];
      }
    }
  }

  /** Without commas the text of a radix conversion is the numeral, with zeros up to the precision. */
  lemma RadixInBase(n: nat, r: Radix, upper: bool, pr: int)
    requires n > 0 || pr != 0
    ensures RadixText(n, r, upper, false, pr) == AtLeast(pr, InBase(n, r.Base(), upper))
  {
    hide Glyphs, Widened, Numerals.Grouped, InBase, Numeral, ZeroDigits, Zeros;
    var d := Numeral(n, r.Base());
    GlyphsInBase(n, r, upper);
    var z := WidenedMeaning(d, r, upper, false, pr);
    ZeroGlyphs(z, d, upper);
    ZeroDigitsLength(z);
    if z > 0 {
      ZeroGlyphs(z - 1, d, upper);
      ZeroDigitsLength(z - 1);
    }
    NoZeros(pr - |d|);
  }

  lemma ZeroDigitsLength(z: nat)
    ensures |ZeroDigits(z)| == z == |Zeros(z)|
  {
  }

  lemma NoZeros(n: int)
    ensures n <= 0 ==> Zeros(n) == Zeros(0) == []
  {
  }

  /** Octal digits look the same in capitals. */
  lemma OctalCapitals(n: nat)
    ensures InBase(n, 8, false) == InBase(n, 8, true)
  {
    hide HexChar;
    var d := if n == 0 then [0] else Numerals.DigitsOf(n, 8);
    forall i | 0 <= i < |d|
      ensures HexChar(d[i], false) == HexChar(d[i], true)
    {
      GlyphIsHexChar(d[i], true);
      GlyphIsHexChar(d[i], false);
      LowDigit(d[i]);
    }
  }

  lemma LowDigit(d: nat)
    requires d < 10
    ensures Glyph(d, false) == Glyph(d, true)
  {
  }

  lemma PrefixMeaning(code: char, alt: bool, n: nat)
    requires IsRadixCode(code) || code == 'p'
    ensures Prefix(code as int, alt, n) == if alt && n > 0 then Ascii(PrefixOf(code)) else []
  {
  }

  lemma CodeMeaning(code: char, n: nat)
    requires IsRadixCode(code) || code == 'p'
    ensures RadixOf(code as int).Base() == BaseOf(code) && IsRadix(code as int)
    ensures InBase(n, BaseOf(code), IsUpper(code as int)) == InBase(n, BaseOf(code), IsCapital(code))
  {
    hide InBase;
    if code == 'o' {
      OctalCapitals(n);
    }
  }

  /** A precision that the digits reach already adds nothing. */
  lemma EnoughDigits(left: bool, zero: bool, w: int, p: int, sign: Text, digits: Text)
    requires p <= |digits|
    ensures Laid(left, zero, w, p, sign, digits) == Laid(left, zero, w, 0, sign, digits)
  {
    NoZeros(p - |digits|);
    NoZeros(0 - |digits|);
  }

  /** With commas and without a precision the text is the numeral in groups. */
  lemma RadixInGroups(n: nat, r: Radix, upper: bool)
    ensures RadixText(n, r, upper, true, -1) == Numerals.Grouped(InBase(n, r.Base(), upper), r.Group())
  {
    hide Glyphs, Numerals.Grouped, InBase, Numeral;
    GlyphsInBase(n, r, upper);
  }

  lemma GroupMeaning(code: char)
    requires IsRadixCode(code) || code == 'p'
    ensures RadixOf(code as int).Group() == GroupOf(code)
  {
  }

  /** The text of a radix conversion. */
  lemma RadixTextShown(code: char, comma: bool, p: int, v: nat)
    requires (IsRadixCode(code) || code == 'p') && (comma ==> p == -1) && (v > 0 || p != 0)
    ensures RadixText(v, RadixOf(code as int), IsUpper(code as int), comma, p) == RadixDigits(code, comma, p, v)
  {
    hide InBase, RadixText, RadixOf, IsUpper, IsCapital, BaseOf, Zeros, Numerals.Grouped, GroupOf;
    CodeMeaning(code, v);
    GroupMeaning(code);
    if comma {
      RadixInGroups(v, RadixOf(code as int), IsUpper(code as int));
    } else {
      RadixInBase(v, RadixOf(code as int), IsUpper(code as int), p);
    }
  }

  lemma RadixFieldShown(code: char, fl: Flags, w: int, pr: int, v: int)
    requires (IsRadixCode(code) || code == 'p') && UnsignedArg(v, fl.intmax || code == 'p')
    requires fl.comma ==> code != 'p' && !fl.zero && pr == -1
    ensures var x := RadixField(code as int, fl, w, pr, v);
      var p := if code == 'p' then 16 else pr;
      x.Shown() == Laid(fl.left, fl.zero && code != 'p', w, 0,
        if fl.alt && v > 0 then Ascii(PrefixOf(code)) else [],
        if v == 0 && p == 0 then [] else RadixDigits(code, fl.comma, p, v))
  {
    hide Laid, InBase, Field.Shown, Prefix, RadixText, RadixOf, IsUpper, PrefixOf, RadixDigits;
    var x := RadixField(code as int, fl, w, pr, v);
    var p := if code == 'p' then 16 else pr;
    FieldLaid(x);
    PrefixMeaning(code, fl.alt, v);
    MagnitudeMeaning(v, fl.intmax || code == 'p');
    if v == 0 && p == 0 {
      NothingInRadix(RadixOf(code as int), IsUpper(code as int));
    } else {
      RadixTextShown(code, fl.comma, p, v);
      LongEnough(code, fl.comma, p, v);
    }
    EnoughDigits(x.left, x.zero, w, x.pr, x.lead, x.text);
  }

  lemma LongEnough(code: char, comma: bool, p: int, v: nat)
    requires comma ==> p == -1
    ensures |RadixDigits(code, comma, p, v)| >= p
  {
    hide InBase, Numerals.Grouped;
  }

  lemma NothingInRadix(r: Radix, upper: bool)
    ensures RadixText(0, r, upper, false, 0) == []
  {
  }

  lemma FieldOfRadix(code: char, d: Directive, v: int, rest: seq<Arg>)
    requires (IsRadixCode(code) || code == 'p') && d.args == [Int(v)] + rest && (code != 'p' ==> d.pr < 512)
    ensures FieldOf(code as int, d) == Some((RadixField(code as int, d.fl, d.fw, d.pr, v), rest))
  {
    hide RadixField;
    assert ([Int(v)] + rest)[0] == Int(v) && ([Int(v)] + rest)[1..] == rest;
  }

  lemma RadixShown(s: Spec, code: nat, v: int, rest: seq<Arg>)
    requires s.Legal() && (IsRadixCode(s.code) || s.code == 'p') && ExpectedNumber(s, v).Some?
    ensures ShowsField(s, code, [Int(v)], rest, ExpectedNumber(s, v).value)
  {
    hide Laid, Field.Shown, PrefixOf, Spec.Flags, RadixField, RadixDigits, FieldOf;
    FlagsMeaning(s);
    FieldOfRadix(s.code, Parsed(s, code, [Int(v)] + rest), v, rest);
    RadixFieldShown(s.code, s.Flags(), s.width.Value(0), s.precision.Value(-1), v);
  }

  lemma CharacterShown(s: Spec, code: nat, v: int, rest: seq<Arg>)
    requires s.Legal() && s.code == 'c' && ExpectedNumber(s, v).Some?
    ensures ShowsField(s, code, [Int(v)], rest, ExpectedNumber(s, v).value)
  {
    hide Laid, Field.Shown, Spec.Flags;
    FlagsMeaning(s);
    assert ([Int(v)] + rest)[0] == Int(v) && ([Int(v)] + rest)[1..] == rest;
    FieldLaid(FieldOf(s.code as int, Parsed(s, code, [Int(v)] + rest)).value.0);
  }

  lemma FieldOfString(d: Directive, a: Arg, rest: seq<Arg>)
    requires d.args == [a] + rest && StringText(a, d.pr).Some?
    ensures FieldOf('s' as int, d)
      == Some((Field(d.fl.left, d.fl.zero, d.fl.comma, d.fw, 0, [], StringText(a, d.pr).value, 0, [], 0, 0), rest))
  {
    hide StringText;
    assert ([a] + rest)[0] == a && ([a] + rest)[1..] == rest;
  }

  lemma StringShown(s: Spec, code: nat, a: Arg, rest: seq<Arg>)
    requires s.Legal() && s.code == 's' && !a.Int? && Expected(s, [a]).Some?
    ensures ShowsField(s, code, [a], rest, Expected(s, [a]).value)
  {
    hide Laid, Field.Shown, Spec.Flags, FieldOf, Readable;
    FlagsMeaning(s);
    NullIsShown();
    FieldOfString(Parsed(s, code, [a] + rest), a, rest);
    FieldLaid(FieldOf(s.code as int, Parsed(s, code, [a] + rest)).value.0);
  }

  lemma NullIsShown()
    ensures NullText() == Ascii("null") && Ascii("null")[..4] == Ascii("null")
  {
  }

  lemma FieldOfPercent(d: Directive)
    ensures FieldOf(PERCENT, d) == Some((Field(false, false, false, 0, 0, [], [PERCENT], 0, [], 0, 0), d.args))
  {
  }

  lemma PercentShown(s: Spec, code: nat, rest: seq<Arg>)
    requires s.Legal() && s.code == '%'
    ensures ShowsField(s, code, [], rest, Ascii("%"))
  {
    hide FieldOf, Spec.Flags, Amount.Value, Field.Shown;
    assert [] + rest == rest;
    FieldOfPercent(Parsed(s, code, [] + rest));
    OnePercent();
  }

  lemma OnePercent()
    ensures Field(false, false, false, 0, 0, [], [PERCENT], 0, [], 0, 0).Shown() == Ascii("%")
  {
    FieldLaid(Field(false, false, false, 0, 0, [], [PERCENT], 0, [], 0, 0));
  }

  /** The field that the code makes of a directive and its argument shows what is expected. */
  lemma DirectiveShown(s: Spec, code: nat, a: seq<Arg>, rest: seq<Arg>)
    requires s.Legal() && Expected(s, a).Some?
    ensures ShowsField(s, code, a, rest, Expected(s, a).value)
  {
    hide ShowsField, ExpectedNumber, Laid;
    if s.code == '%' {
      PercentShown(s, code, rest);
    } else {
      assert a == [a[0]];
      if a[0].Int? {
        NumberShown(s, code, a[0].v, rest);
      } else {
        StringShown(s, code, a[0], rest);
      }
    }
  }

  lemma NumberShown(s: Spec, code: nat, v: int, rest: seq<Arg>)
    requires s.Legal() && ExpectedNumber(s, v).Some?
    ensures ShowsField(s, code, [Int(v)], rest, ExpectedNumber(s, v).value)
  {
    hide ShowsField, ExpectedDecimal, Laid, RadixDigits;
    if s.code == 'd' || s.code == 'i' || s.code == 'u' {
      DecimalShown(s, code, v, rest);
    } else if s.code == 'c' {
      CharacterShown(s, code, v, rest);
    } else {
      RadixShown(s, code, v, rest);
    }
  }

  // ----- whole formats

  /** A stretch of a format: plain text, or a directive with the argument it shows. */
  datatype Piece = Plain(text: Text) | Directed(spec: Spec, arg: seq<Arg>) {
    predicate Legal() {
      match this
      case Plain(t) => PERCENT !in t && 0 !in t
      case Directed(s, a) => s.Legal() && Expected(s, a).Some?
    }

    function Written(): Text {
      match this
      case Plain(t) => t
      case Directed(s, _) => s.Written()
    }

    function Args(): seq<Arg> {
      match this
      case Plain(_) => []
      case Directed(s, a) => s.Args() + a
    }

    function Shows(): Text
      requires Legal()
    {
      match this
      case Plain(t) => t
      case Directed(s, a) => Expected(s, a).value
    }
  }

  function FormatOf(pieces: seq<Piece>): Text {
    if pieces == [] then [0] else pieces[0].Written() + FormatOf(pieces[1..])
  }

  function ArgsOf(pieces: seq<Piece>): seq<Arg> {
    if pieces == [] then [] else pieces[0].Args() + ArgsOf(pieces[1..])
  }

  function TextOf(pieces: seq<Piece>): Text
    requires forall p <- pieces :: p.Legal()
  {
    if pieces == [] then [] else pieces[0].Shows() + TextOf(pieces[1..])
  }

  /** The text t in front of what the rest shows. */
  function Before(t: Text, rest: Option<Text>): Option<Text> {
    match rest
    case None => None
    case Some(r) => Some(t + r)
  }

  /** Plain text is put out as it is. */
  lemma {:induction false} PlainRendered(fmt: Text, f: nat, t: Text, args: seq<Arg>)
    requires Stands(fmt, f, t) && PERCENT !in t && 0 !in t
    ensures InText(fmt, f) && Render(fmt, f, args) == Before(t, Render(fmt, f + |t|, args))
    decreases |t|
  {
    hide Render, InText;
    StandsInText(fmt, f, t);
    var r := Render(fmt, f + |t|, args);
    if t == [] {
      assert r.Some? ==> t + r.value == r.value;
    } else {
      StandsFirst(fmt, f, t);
      PlainRendered(fmt, f + 1, t[1..], args);
      assert t[0] in t;
      OneMoreCharacter(fmt, f, args);
      assert t == [t[0]] + t[1..];
      assert r.Some? ==> [t[0]] + (t[1..] + r.value) == t + r.value;
    }
  }

  lemma OneMoreCharacter(fmt: Text, f: nat, args: seq<Arg>)
    requires InText(fmt, f) && f < |fmt| && fmt[f] != 0 && fmt[f] != PERCENT
    ensures InText(fmt, f + 1) && Render(fmt, f, args) == Before([fmt[f]], Render(fmt, f + 1, args))
  {
    hide FieldOf, DirectiveAt, InText, Field.Shown, LiteralEnd;
    InTextNext(fmt, f);
    var e := LiteralEnd(fmt, f);
    NextLiteral(fmt, f);
    assert fmt[f..e] == [fmt[f]] + fmt[f + 1..e];
    if fmt[e] != 0 {
      InTextNext(fmt, e);
      RenderedHere(fmt, f, args);
      RenderedHere(fmt, f + 1, args);
      var r := Behind(fmt, e, args);
      assert r.Some? ==> [fmt[f]] + (fmt[f + 1..e] + r.value) == fmt[f..e] + r.value;
    }
  }

  lemma NextLiteral(fmt: Text, f: nat)
    requires InText(fmt, f) && f < |fmt| && fmt[f] != 0 && fmt[f] != PERCENT
    ensures InText(fmt, f + 1) && LiteralEnd(fmt, f) == LiteralEnd(fmt, f + 1)
  {
  }

  /** What is shown from the '%' at e on. */
  function Behind(fmt: Text, e: nat, args: seq<Arg>): Option<Text>
    requires InText(fmt, e) && e < |fmt| && fmt[e] != 0
  {
    InTextNext(fmt, e);
    var d := DirectiveAt(fmt, e + 1, args);
    if d.None? then None
    else
      InTextNext(fmt, d.value.code);
      var x := FieldOf(fmt[d.value.code], d.value);
      if x.None? then None else Before(x.value.0.Shown(), Render(fmt, d.value.code + 1, x.value.1))
  }

  lemma FieldHasCode(c: Byte, d: Directive)
    requires FieldOf(c, d).Some?
    ensures c != 0
  {
  }

  lemma RenderedHere(fmt: Text, f: nat, args: seq<Arg>)
    requires InText(fmt, f) && fmt[LiteralEnd(fmt, f)] != 0
    ensures var e := LiteralEnd(fmt, f);
      InText(fmt, e) && Render(fmt, f, args) == Before(fmt[f..e], Behind(fmt, e, args))
  {
    hide FieldOf, DirectiveAt, InText, Field.Shown, LiteralEnd;
    var e := LiteralEnd(fmt, f);
    InTextNext(fmt, e);
    var d := DirectiveAt(fmt, e + 1, args);
    if d.Some? {
      InTextNext(fmt, d.value.code);
      var x := FieldOf(fmt[d.value.code], d.value);
      if x.Some? {
        FieldHasCode(fmt[d.value.code], d.value);
        var r := Render(fmt, d.value.code + 1, x.value.1);
        assert r.Some? ==> fmt[f..e] + (x.value.0.Shown() + r.value) == fmt[f..e] + x.value.0.Shown() + r.value;
      }
    }
  }

  /** A directive is put out as expected, whatever stands behind it. */
  lemma DirectiveRendered(fmt: Text, f: nat, s: Spec, a: seq<Arg>, rest: seq<Arg>)
    requires s.Legal() && Expected(s, a).Some? && Stands(fmt, f, s.Written())
    ensures InText(fmt, f)
    ensures Render(fmt, f, s.Args() + a + rest) == Before(Expected(s, a).value, Render(fmt, f + |s.Written()|, rest))
  {
    hide Render, Expected, FieldOf, DirectiveAt, InText, Spec.Written, Spec.Args, Spec.Flags, Field.Shown, Stands;
    WrittenParts(s);
    StandsInText(fmt, f, s.Written());
    StandsFirst(fmt, f, s.Written());
    DirectiveRead(fmt, f + 1, s, a + rest);
    assert s.Args() + (a + rest) == s.Args() + a + rest;
    DirectiveShown(s, f + |s.Written()| - 1, a, rest);
    AtPercent(fmt, f);
    RenderedHere(fmt, f, s.Args() + a + rest);
    var b := Behind(fmt, f, s.Args() + a + rest);
    assert b.Some? ==> fmt[f..f] + b.value == b.value;
  }

  lemma AtPercent(fmt: Text, f: nat)
    requires InText(fmt, f) && f < |fmt| && fmt[f] == PERCENT
    ensures LiteralEnd(fmt, f) == f
  {
  }

  lemma PieceRendered(fmt: Text, f: nat, p: Piece, rest: seq<Arg>)
    requires p.Legal() && Stands(fmt, f, p.Written())
    ensures InText(fmt, f)
    ensures Render(fmt, f, p.Args() + rest) == Before(p.Shows(), Render(fmt, f + |p.Written()|, rest))
  {
    hide Render, Expected, InText, Stands, Spec.Written, Spec.Args, Spec.Legal;
    match p
    case Plain(t) =>
      assert p.Args() + rest == rest;
      PlainRendered(fmt, f, t, rest);
    case Directed(s, a) =>
      DirectiveRendered(fmt, f, s, a, rest);
  }

  lemma {:induction false} FormatEnds(pieces: seq<Piece>)
    ensures FormatOf(pieces) != [] && FormatOf(pieces)[|FormatOf(pieces)| - 1] == 0
  {
    if pieces != [] {
      FormatEnds(pieces[1..]);
    }
  }

  /**
   * A format of plain text and directives shows its plain text as it is and, in the place
   * of each directive, what is expected of that directive and its argument.
   */
  lemma {:induction false} FormatShown(fmt: Text, f: nat, pieces: seq<Piece>)
    requires (forall p <- pieces :: p.Legal()) && f <= |fmt| && fmt[f..] == FormatOf(pieces)
    ensures InText(fmt, f) && Render(fmt, f, ArgsOf(pieces)) == Some(TextOf(pieces))
    decreases |pieces|
  {
    hide Piece.Legal, Piece.Written, Piece.Args, Piece.Shows, Render, InText, Stands;
    FormatEnds(pieces);
    if pieces == [] {
      NothingLeft(fmt, f);
    } else {
      var p := pieces[0];
      assert FormatOf(pieces) == p.Written() + FormatOf(pieces[1..]);
      PieceStands(fmt, f, p, pieces[1..]);
      FormatShown(fmt, f + |p.Written()|, pieces[1..]);
      PieceRendered(fmt, f, p, ArgsOf(pieces[1..]));
    }
  }

  lemma PieceStands(fmt: Text, f: nat, p: Piece, rest: seq<Piece>)
    requires f <= |fmt| && fmt[f..] == p.Written() + FormatOf(rest)
    ensures Stands(fmt, f, p.Written()) && fmt[f + |p.Written()|..] == FormatOf(rest)
  {
    hide Piece.Written, FormatOf;
    FormatEnds(rest);
    var t := p.Written();
    assert fmt[|fmt| - 1] == fmt[f..][|fmt| - 1 - f] == 0;
    assert fmt[f..f + |t|] == fmt[f..][..|t|] == t;
    assert fmt[f + |t|..] == fmt[f..][|t|..] == FormatOf(rest);
  }

  lemma NothingLeft(fmt: Text, f: nat)
    requires f <= |fmt| && fmt[f..] == [0]
    ensures InText(fmt, f) && Render(fmt, f, []) == Some([])
  {
    assert fmt[f] == fmt[f..][0] == 0;
    assert LiteralEnd(fmt, f) == f;
    assert fmt[f..f] == [];
  }

  lemma OneDirective(s: Spec, a: seq<Arg>)
    requires s.Legal() && Expected(s, a).Some?
    ensures InText(s.Written() + [0], 0) && Render(s.Written() + [0], 0, s.Args() + a) == Expected(s, a)
  {
    hide Render, Expected, InText, Spec.Written, Spec.Legal, Spec.Args;
    var pieces := [Directed(s, a)];
    var fmt := s.Written() + [0];
    assert pieces[1..] == [] && FormatOf(pieces[1..]) == [0];
    assert FormatOf(pieces) == fmt == fmt[0..];
    FormatShown(fmt, 0, pieces);
    assert ArgsOf(pieces) == s.Args() + a + [] == s.Args() + a;
    assert TextOf(pieces) == Expected(s, a).value + [] == Expected(s, a).value;
  }

  // ----- reading the text back

  predicate IsDigitChar(c: Byte) {
    '0' as int <= c <= '9' as int
  }

  /** The decimal digits at the start of a text. */
  function Leading(t: Text): Numerals.Digits {
    if t == [] || !IsDigitChar(t[0]) then [] else [t[0] - '0' as int] + Leading(t[1..])
  }

  function ReadNatural(t: Text): nat {
    Numerals.ValueOf(Leading(t), 10)
  }

  /** Spaces, a sign, digits; what follows them is not read. */
  function ReadInteger(t: Text): int {
    if t == [] then 0
    else if t[0] == ' ' as int then ReadInteger(t[1..])
    else if t[0] == '-' as int then -(ReadNatural(t[1..]) as int)
    else if t[0] == '+' as int then ReadNatural(t[1..])
    else ReadNatural(t)
  }

  lemma {:induction false} BlanksSkipped(n: int, t: Text)
    ensures ReadInteger(Blanks(n) + t) == ReadInteger(t)
    decreases n
  {
    if n <= 0 {
      assert Blanks(n) + t == t;
    } else {
      assert (Blanks(n) + t)[1..] == Blanks(n - 1) + t;
      BlanksSkipped(n - 1, t);
    }
  }

  lemma {:induction false} LeadingOf(d: Numerals.Digits, t: Text, rest: Text)
    requires Numerals.AreDigits(d, 10) && |t| == |d| && forall i :: 0 <= i < |d| ==> t[i] == '0' as int + d[i]
    requires rest == [] || !IsDigitChar(rest[0])
    ensures Leading(t + rest) == d
    decreases |d|
  {
    if d == [] {
      assert t + rest == rest;
    } else {
      assert (t + rest)[1..] == t[1..] + rest;
      LeadingOf(d[1..], t[1..], rest);
      assert d == [d[0]] + d[1..];
    }
  }

  /** Zeros in front and blanks behind do not change what is read. */
  lemma NumeralReadBack(z: int, n: nat, b: int)
    ensures ReadNatural(Zeros(z) + InBase(n, 10, true) + Blanks(b)) == n
  {
    hide Numerals.ValueOf, Numerals.DigitsOf, HexChars;
    var k: nat := if z < 0 then 0 else z;
    var x := Numeral(n, 10);
    var t := Zeros(z) + InBase(n, 10, true);
    forall i | 0 <= i < |x|
      ensures InBase(n, 10, true)[i] == '0' as int + x[i]
    {
      GlyphIsHexChar(x[i], true);
    }
    LeadingOf(ZeroDigits(k) + x, t, Blanks(b));
    ZerosInFront(k, x, 10);
    NumeralValue(n, 10);
  }

  lemma FirstOfDigits(z: int, n: nat)
    ensures var t := Zeros(z) + InBase(n, 10, true);
      |t| > 0 && IsDigitChar(t[0])
  {
    hide HexChars;
    var x := Numeral(n, 10);
    GlyphIsHexChar(x[0], true);
  }

  /** A signed conversion is read back as the number it was given, whatever flags but commas. */
  lemma SignedReadBack(s: Spec, v: int)
    requires (s.code == 'd' || s.code == 'i') && !s.Commas() && Expected(s, [Int(v)]).Some?
    ensures ReadInteger(Expected(s, [Int(v)]).value) == v
  {
    hide InBase, Zeros, Blanks, ReadNatural, ReadInteger, Amount.Value;
    var n: nat := if v < 0 then -v else v;
    var sign, digits, w, p := Sign(s.flags, v < 0), InBase(n, 10, true), s.width.Value(0), s.precision.Value(0);
    var z, room := p - |digits|, w - |sign| - (if p > |digits| then p else |digits|);
    if s.Left() {
      SignedRead(0, sign, v, z, room);
    } else if s.zero {
      SignedRead(0, sign, v, if room > z then room else z, 0);
    } else {
      SignedRead(room, sign, v, z, 0);
    }
    LaidParts(s.Left(), s.zero, w, p, sign, digits);
  }

  /** Every layout is blanks, sign, zeros, digits and blanks. */
  lemma LaidParts(left: bool, zero: bool, width: int, precision: int, sign: Text, digits: Text)
    ensures var z := precision - |digits|;
      var room := width - |sign| - (if z > 0 then precision else |digits|);
      Laid(left, zero, width, precision, sign, digits) ==
        if left then Blanks(0) + (sign + (Zeros(z) + digits + Blanks(room)))
        else if zero then Blanks(0) + (sign + (Zeros(if room > z then room else z) + digits + Blanks(0)))
        else Blanks(room) + (sign + (Zeros(z) + digits + Blanks(0)))
  {
  }

  lemma SignedRead(before: int, sign: Text, v: int, z: int, b: int)
    requires var other := if sign == Ascii(" ") || sign == Ascii("+") then sign else [];
      sign == if v < 0 then Ascii("-") else other
    ensures var n: nat := if v < 0 then -v else v;
      ReadInteger(Blanks(before) + (sign + (Zeros(z) + InBase(n, 10, true) + Blanks(b)))) == v
  {
    hide InBase, Zeros, Blanks, ReadNatural;
    var n: nat := if v < 0 then -v else v;
    var t := Zeros(z) + InBase(n, 10, true) + Blanks(b);
    BlanksSkipped(before, sign + t);
    NumeralReadBack(z, n, b);
    FirstOfDigits(z, n);
    assert t[0] == (Zeros(z) + InBase(n, 10, true))[0];
    if sign == [] {
      assert sign + t == t;
    } else {
      assert (sign + t)[0] == sign[0] && (sign + t)[1..] == t;
    }
  }

  predicate IsCase(c: Byte, upper: bool) {
    IsDigitChar(c) || (if upper then 'A' as int <= c <= 'F' as int else 'a' as int <= c <= 'f' as int)
  }

  /** A numeral in any base reads as its number, has no zero in front, and is in one case. */
  lemma InBaseReads(n: nat, b: Numerals.Base, upper: bool)
    requires b <= 16
    ensures var t := InBase(n, b, upper);
      && (forall i :: 0 <= i < |t| ==> IsCase(t[i], upper) && NumberTexts.IsHexDigit(t[i]))
      && Numerals.ValueOf(seq(|t|, i requires 0 <= i < |t| => NumberTexts.HexDigit(t[i])), b) == n
      && (n > 0 ==> t[0] != '0' as int)
  {
    hide Numerals.ValueOf, HexChars;
    var x := Numeral(n, b);
    var t := InBase(n, b, upper);
    forall i | 0 <= i < |t|
      ensures IsCase(t[i], upper) && NumberTexts.IsHexDigit(t[i]) && NumberTexts.HexDigit(t[i]) == x[i]
      ensures x[i] > 0 ==> t[i] != '0' as int
    {
      GlyphIsHexChar(x[i], upper);
    }
    assert seq(|t|, i requires 0 <= i < |t| => NumberTexts.HexDigit(t[i])) == x;
    NumeralValue(n, b);
  }
}

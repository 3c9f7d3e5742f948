// Format directives: flags, width, precision, size and conversion
// (rizzos/lib/stb_sprintf.h:433-613, 978-1074, 1332-1343).
module StbFormats {
  import opened Options
  import opened Bits
  import opened StbWords
  import opened StbScans
  import opened StbOutputs
  import opened StbFields
  import opened StbLiterals
  import opened StbDecimals
  import opened StbRadixes
  import Numerals

  /** One of the variable arguments: a number, a pointer to text, or the null pointer. */
  datatype Arg = Int(v: int) | Str(s: Block) | Null

  datatype Flags = Flags(left: bool, plus: bool, space: bool, alt: bool, zero: bool, comma: bool,
                         nospace: bool, half: bool, intmax: bool, metric: nat)

  const NO_FLAGS: Flags := Flags(false, false, false, false, false, false, false, false, false, 0)

  /** A directive up to its conversion character, with the arguments that are left. */
  datatype Directive = Directive(fl: Flags, fw: int, pr: int, code: nat, args: seq<Arg>)

  function Ch(c: char): Byte
    requires c as int < 256
  {
    c as int
  }

  // ----- flags

  /** The flags that may be followed by further flags. */
  predicate IsFlag(c: Byte) {
    c == Ch('-') || c == Ch('+') || c == Ch(' ') || c == Ch('#') || c == Ch('\'') || c == Ch('$') || c == Ch('_')
  }

  function AddFlag(fl: Flags, c: Byte): Flags {
    if c == Ch('-') then fl.(left := true)
    else if c == Ch('+') then fl.(plus := true)
    else if c == Ch(' ') then fl.(space := true)
    else if c == Ch('#') then fl.(alt := true)
    else if c == Ch('\'') then fl.(comma := true)
    else if c == Ch('$') then fl.(metric := if fl.metric < 3 then fl.metric + 1 else 3)
    else fl.(nospace := true)
  }

  /** A zero ends the flags. */
  function FlagsAt(fmt: Text, f: nat, fl: Flags): (r: (Flags, nat))
    requires InText(fmt, f)
    ensures f <= r.1 && InText(fmt, r.1)
    decreases |fmt| - f
  {
    InTextNext(fmt, f);
    if IsFlag(fmt[f]) then FlagsAt(fmt, f + 1, AddFlag(fl, fmt[f]))
    else if fmt[f] == Ch('0') then (fl.(zero := true), f + 1)
    else (fl, f)
  }

  method ReadFlags(fmt: Text, f0: nat) returns (fl: Flags, f: nat)
    requires InText(fmt, f0)
    ensures (fl, f) == FlagsAt(fmt, f0, NO_FLAGS)
  {
    hide InText, AddFlag;
    fl, f := NO_FLAGS, f0;
    InTextNext(fmt, f);
    while IsFlag(fmt[f])
      invariant f0 <= f < |fmt| && InText(fmt, f) && FlagsAt(fmt, f, fl) == FlagsAt(fmt, f0, NO_FLAGS)
      decreases |fmt| - f
    {
      InTextNext(fmt, f);
      fl, f := AddFlag(fl, fmt[f]), f + 1;
      InTextNext(fmt, f);
    }
    if fmt[f] == Ch('0') {
      fl, f := fl.(zero := true), f + 1;
    }
  }

  // ----- width and precision

  predicate IsDigit(c: Byte) {
    Ch('0') <= c <= Ch('9')
  }

  /** The digits that stand at f. */
  function DigitsAt(fmt: Text, f: nat): (d: Numerals.Digits)
    requires InText(fmt, f)
    ensures Numerals.AreDigits(d, 10) && InText(fmt, f + |d|)
    decreases |fmt| - f
  {
    InTextNext(fmt, f);
    if IsDigit(fmt[f]) then [fmt[f] - Ch('0')] + DigitsAt(fmt, f + 1) else []
  }

  lemma DigitsStep(fmt: Text, f: nat)
    requires InText(fmt, f)
    ensures f < |fmt| && (fmt[f] != 0 ==> InText(fmt, f + 1))
    ensures DigitsAt(fmt, f) == if IsDigit(fmt[f]) then [fmt[f] - Ch('0')] + DigitsAt(fmt, f + 1) else []
  {
    InTextNext(fmt, f);
  }

  /** Their value. */
  function NumberAt(fmt: Text, f: nat): nat
    requires InText(fmt, f)
  {
    Numerals.ValueOf(DigitsAt(fmt, f), 10)
  }

  method ReadNumber(fmt: Text, f0: nat) returns (v: nat, f: nat)
    requires InText(fmt, f0)
    ensures v == Numerals.ValueOf(DigitsAt(fmt, f0), 10) && f == f0 + |DigitsAt(fmt, f0)|
  {
    hide InText, Numerals.ValueOf, DigitsAt;
    v, f := 0, f0;
    ghost var done: Numerals.Digits := [];
    NoDigitsLeft();
    assert DigitsAt(fmt, f0) == done + DigitsAt(fmt, f);
    DigitsStep(fmt, f);
    while IsDigit(fmt[f])
      invariant f < |fmt| && InText(fmt, f) && f == f0 + |done|
      invariant DigitsAt(fmt, f0) == done + DigitsAt(fmt, f) && v == Numerals.ValueOf(done, 10)
      decreases |fmt| - f
    {
      DigitsStep(fmt, f);
      ghost var d := fmt[f] - Ch('0');
      Numerals.ValueOfMore(done, d, 10);
      assert done + ([d] + DigitsAt(fmt, f + 1)) == (done + [d]) + DigitsAt(fmt, f + 1);
      done := done + [d];
      v := v * 10 + fmt[f] - Ch('0');
      f := f + 1;
      DigitsStep(fmt, f);
    }
    DigitsStep(fmt, f);
    assert done + [] == done;
  }

  /** The low 32 bits as an `int`. */
  function Int32(v: int): (r: int)
    ensures -0x8000_0000 <= r < 0x8000_0000
  {
    var w := v % 0x1_0000_0000;
    if w < 0x8000_0000 then w else w - 0x1_0000_0000
  }

  /** A width or precision: an argument for `*`, else digits; digits beyond an `int` have no meaning. */
  function SizeAt(fmt: Text, f: nat, args: seq<Arg>): (r: Option<(int, nat, seq<Arg>)>)
    requires InText(fmt, f)
    ensures r.Some? ==> f <= r.value.1 && InText(fmt, r.value.1)
  {
    InTextNext(fmt, f);
    if fmt[f] == Ch('*') then
      if args != [] && args[0].Int? then Some((Int32(args[0].v), f + 1, args[1..])) else None
    else
      var n := NumberAt(fmt, f);
      if n < 0x8000_0000 then Some((n, f + |DigitsAt(fmt, f)|, args)) else None
  }

  method ReadSize(fmt: Text, f0: nat, args0: seq<Arg>) returns (v: int, f: nat, args: seq<Arg>)
    requires InText(fmt, f0) && SizeAt(fmt, f0, args0).Some?
    ensures Some((v, f, args)) == SizeAt(fmt, f0, args0)
  {
    hide InText, DigitsAt;
    InTextNext(fmt, f0);
    f, args := f0, args0;
    if fmt[f] == Ch('*') {
      v := Int32(args[0].v);
      args := args[1..];
      f := f + 1;
    } else {
      v, f := ReadNumber(fmt, f);
    }
  }

  // ----- the size letters

  /** f[i]; never asked for past the NUL. */
  function At(fmt: Text, i: nat): Byte {
    if i < |fmt| then fmt[i] else 0
  }

  /** How many of the next three characters belong to a size: h, hh, l, ll, j, z, t, I, I32, I64. */
  function SizeLetters(c0: Byte, c1: Byte, c2: Byte): (n: nat)
    ensures n <= 3 && (n > 0 ==> c0 != 0) && (n > 1 ==> c1 != 0) && (n > 2 ==> c2 != 0)
  {
    if c0 == Ch('h') || c0 == Ch('l') then
      if c1 == c0 then 2 else 1
    else if c0 == Ch('j') || c0 == Ch('z') || c0 == Ch('t') then 1
    else if c0 == Ch('I') then
      if (c1 == Ch('6') && c2 == Ch('4')) || (c1 == Ch('3') && c2 == Ch('2')) then 3 else 1
    else 0
  }

  /** On a 64-bit target l, j, z, t, I and I64 all ask for 64 bits. */
  function SizeFlags(fl: Flags, c0: Byte, c1: Byte, c2: Byte): Flags {
    if c0 == Ch('h') then fl.(half := true)
    else if c0 == Ch('l') || c0 == Ch('j') || c0 == Ch('z') || c0 == Ch('t') then fl.(intmax := true)
    else if c0 == Ch('I') && !(c1 == Ch('3') && c2 == Ch('2')) then fl.(intmax := true)
    else fl
  }

  lemma InTextPlus(fmt: Text, f: nat, n: nat)
    requires InText(fmt, f) && n <= 3
    requires (n > 0 ==> At(fmt, f) != 0) && (n > 1 ==> At(fmt, f + 1) != 0) && (n > 2 ==> At(fmt, f + 2) != 0)
    ensures InText(fmt, f + n)
  {
    hide InText;
    InTextNext(fmt, f);
    if n > 0 {
      InTextNext(fmt, f + 1);
    }
    if n > 1 {
      InTextNext(fmt, f + 2);
    }
  }

  function LengthAt(fmt: Text, f: nat, fl: Flags): (r: (Flags, nat))
    requires InText(fmt, f)
    ensures f <= r.1 && InText(fmt, r.1)
  {
    var n := SizeLetters(At(fmt, f), At(fmt, f + 1), At(fmt, f + 2));
    InTextPlus(fmt, f, n);
    (SizeFlags(fl, At(fmt, f), At(fmt, f + 1), At(fmt, f + 2)), f + n)
  }

  method ReadLength(fmt: Text, f0: nat, fl0: Flags) returns (fl: Flags, f: nat)
    requires InText(fmt, f0)
    ensures (fl, f) == LengthAt(fmt, f0, fl0)
  {
    hide InText;
    fl, f := fl0, f0;
    InTextNext(fmt, f);
    var c := fmt[f];
    if c == Ch('h') {
      InTextNext(fmt, f + 1);
      fl, f := fl.(half := true), f + 1;
      if fmt[f] == Ch('h') {
        f := f + 1;
      }
    } else if c == Ch('l') {
      InTextNext(fmt, f + 1);
      fl, f := fl.(intmax := true), f + 1;
      if fmt[f] == Ch('l') {
        f := f + 1;
      }
    } else if c == Ch('j') || c == Ch('z') || c == Ch('t') {
      fl, f := fl.(intmax := true), f + 1;
    } else if c == Ch('I') {
      InTextNext(fmt, f + 1);
      if fmt[f + 1] == Ch('6') && At(fmt, f + 2) == Ch('4') {
        fl, f := fl.(intmax := true), f + 3;
      } else if fmt[f + 1] == Ch('3') && At(fmt, f + 2) == Ch('2') {
        f := f + 3;
      } else {
        fl, f := fl.(intmax := true), f + 1;
      }
    }
  }

  // ----- a whole directive

  function PrecisionAt(fmt: Text, f: nat, args: seq<Arg>): (r: Option<(int, nat, seq<Arg>)>)
    requires InText(fmt, f)
    ensures r.Some? ==> f <= r.value.1 && InText(fmt, r.value.1)
  {
    InTextNext(fmt, f);
    if fmt[f] == Ch('.') then SizeAt(fmt, f + 1, args) else Some((-1, f, args))
  }

  /** Everything between the '%' and the conversion character. */
  function DirectiveAt(fmt: Text, f: nat, args: seq<Arg>): (r: Option<Directive>)
    requires InText(fmt, f)
    ensures r.Some? ==> f <= r.value.code && InText(fmt, r.value.code)
  {
    var flags := FlagsAt(fmt, f, NO_FLAGS);
    var width := SizeAt(fmt, flags.1, args);
    if width.None? then None
    else
      var precision := PrecisionAt(fmt, width.value.1, width.value.2);
      if precision.None? then None
      else
        var length := LengthAt(fmt, precision.value.1, flags.0);
        Some(Directive(length.0, width.value.0, precision.value.0, length.1, precision.value.2))
  }

  method ReadDirective(fmt: Text, f0: nat, args0: seq<Arg>) returns (d: Directive)
    requires InText(fmt, f0) && DirectiveAt(fmt, f0, args0).Some?
    ensures Some(d) == DirectiveAt(fmt, f0, args0)
  {
    hide InText, FlagsAt, SizeAt, LengthAt;
    var fl, f := ReadFlags(fmt, f0);
    var fw, args;
    fw, f, args := ReadSize(fmt, f, args0);
    var pr := -1;
    InTextNext(fmt, f);
    if fmt[f] == Ch('.') {
      pr, f, args := ReadSize(fmt, f + 1, args);
    }
    fl, f := ReadLength(fmt, f, fl);
    d := Directive(fl, fw, pr, f, args);
  }

  // ----- the conversions

  /** Conversions that are not modelled: floats, %n, and a lone '%' at the end. */
  predicate Unmodelled(c: Byte) {
    c == 0 || c in [Ch('n'), Ch('a'), Ch('A'), Ch('e'), Ch('E'), Ch('f'), Ch('g'), Ch('G')]
  }

  predicate IsRadix(c: Byte) {
    c in [Ch('b'), Ch('B'), Ch('o'), Ch('x'), Ch('X'), Ch('p')]
  }

  function RadixOf(c: Byte): Radix {
    if c == Ch('b') || c == Ch('B') then Binary else if c == Ch('o') then Octal else Hex
  }

  predicate IsUpper(c: Byte) {
    c == Ch('B') || c == Ch('o') || c == Ch('X')
  }

  /** The prefix that `#` asks for, which zero does not get. */
  function Prefix(c: Byte, alt: bool, n: nat): Text {
    if !alt || n == 0 then []
    else if c == Ch('o') then [Ch('0')]
    else if c == Ch('b') || c == Ch('B') then [Ch('0'), c]
    else [Ch('0'), if c == Ch('X') then c else Ch('x')]
  }

  /** A pointer is 64 bits wide, shown with sixteen digits and never padded with zeros. */
  function RadixFlags(c: Byte, fl: Flags): Flags {
    if c == Ch('p') then fl.(intmax := true, zero := false) else fl
  }

  function RadixPrecision(c: Byte, pr: int): int {
    if c == Ch('p') then 16 else pr
  }

  function Unsigned(v: int, intmax: bool): (n: nat)
    ensures n < U64_LIMIT
  {
    if intmax then v % 0x1_0000_0000_0000_0000 else v % 0x1_0000_0000
  }

  function RadixBytesOf(n: nat, r: Radix, upper: bool, comma: bool, pr: int): Text {
    RadixBytes(n, r, upper, comma, pr);
    RadixText(n, r, upper, comma, pr)
  }

  /** The field of %b, %o, %x or %p. */
  function RadixField(c: Byte, fl0: Flags, fw: int, pr0: int, v: int): Field {
    var fl, pr := RadixFlags(c, fl0), RadixPrecision(c, pr0);
    var n := Unsigned(v, fl.intmax);
    var text := RadixBytesOf(n, RadixOf(c), IsUpper(c), fl.comma, pr);
    var none := n == 0 && pr == 0;
    Field(fl.left, fl.zero, fl.comma, fw, pr, Prefix(c, fl.alt, n), text, 0, [],
          if none then 0 else RadixOf(c).Group(), |text|)
  }

  function Int64(v: int): (r: int)
    ensures -0x8000_0000_0000_0000 <= r < 0x8000_0000_0000_0000
  {
    var w := v % 0x1_0000_0000_0000_0000;
    if w < 0x8000_0000_0000_0000 then w else w - 0x1_0000_0000_0000_0000
  }

  /** The number an integer conversion prints: unsigned as it is, signed without its sign. */
  function IntMagnitude(v: int, intmax: bool, unsigned: bool): (n: nat)
    ensures n < U64_LIMIT
  {
    var i := if intmax then Int64(v) else Int32(v);
    if i < 0 && !unsigned then -i
    else if i < 0 then i + (if intmax then 0x1_0000_0000_0000_0000 else 0x1_0000_0000)
    else i
  }

  function IntNegative(v: int, intmax: bool, unsigned: bool): bool {
    !unsigned && (if intmax then Int64(v) else Int32(v)) < 0
  }

  /**
   * A signed argument in range is its sign and its magnitude, the lowest value included;
   * an unsigned conversion shows the same word as a number from zero on.
   */
  lemma IntMeaning(v: int, intmax: bool)
    requires intmax ==> -0x8000_0000_0000_0000 <= v < 0x8000_0000_0000_0000
    requires !intmax ==> -0x8000_0000 <= v < 0x8000_0000
    ensures IntNegative(v, intmax, false) <==> v < 0
    ensures v < 0 ==> v + IntMagnitude(v, intmax, false) == 0
    ensures v >= 0 ==> v == IntMagnitude(v, intmax, false)
    ensures (IntMagnitude(v, intmax, true) - v) % (if intmax then U64_LIMIT else 0x1_0000_0000) == 0
    ensures !IntNegative(v, intmax, true) && (!intmax ==> IntMagnitude(v, intmax, true) < 0x1_0000_0000)
  {
    if intmax {
      assert Int64(v) == v;
    } else {
      assert Int32(v) == v;
    }
  }

  /** stbsp__lead_sign. */
  function LeadSign(fl: Flags, negative: bool): Text {
    if negative then [Ch('-')] else if fl.space then [Ch(' ')] else if fl.plus then [Ch('+')] else []
  }

  /** The largest length of a string without a precision. */
  const NO_LIMIT: nat := 0xffff_ffff

  function StringLimit(pr: int): nat {
    if pr >= 0 then pr else NO_LIMIT
  }

  predicate Readable(s: Block, limit: nat) {
    s.Aligned() && (0 in s.bytes || limit <= |s.bytes|)
  }

  function NullText(): Text {
    [Ch('n'), Ch('u'), Ch('l'), Ch('l')]
  }

  /** What %s shows: the string, or "null", up to the precision. */
  function StringText(a: Arg, pr: int): (r: Option<Text>) {
    match a
    case Int(_) => None
    case Null => Some(if StringLimit(pr) < 4 then NullText()[..StringLimit(pr)] else NullText())
    case Str(s) => if Readable(s, StringLimit(pr)) then Some(s.bytes[..Length(s.bytes, StringLimit(pr))]) else None
  }

  /** All characters are below 256. */
  lemma NumberBytes(n: nat, comma: bool)
    ensures forall i :: 0 <= i < |NumberText(n, comma)| ==> NumberText(n, comma)[i] < 256
  {
    hide Numerals.Grouped, Numerals.DigitsOf;
    if n > 0 {
      Numerals.WiderBase(Numerals.DigitsOf(n, 10));
    }
    if comma {
      Numerals.GroupedBytes(Numerals.Decimal(n), 3);
    }
  }

  function NumberOf(n: nat, comma: bool): Text {
    NumberBytes(n, comma);
    NumberText(n, comma)
  }

  /** The field of a conversion and the arguments after it; none where C gives no meaning. */
  function FieldOf(c: Byte, d: Directive): Option<(Field, seq<Arg>)> {
    if Unmodelled(c) then None
    else if c == Ch('s') then
      if d.args == [] || StringText(d.args[0], d.pr).None? then None
      else
        Some((Field(d.fl.left, d.fl.zero, d.fl.comma, d.fw, 0, [],
                    StringText(d.args[0], d.pr).value, 0, [], 0, 0), d.args[1..]))
    else if c == Ch('c') then
      if d.args == [] || !d.args[0].Int? then None
      else
        Some((Field(d.fl.left, d.fl.zero, d.fl.comma, d.fw, 0, [], [d.args[0].v % 256], 0, [], 0, 0), d.args[1..]))
    else if c == Ch('d') || c == Ch('i') || c == Ch('u') then
      if d.args == [] || !d.args[0].Int? || d.fl.metric > 0 then None
      else
        var v := d.args[0].v;
        var unsigned := c == Ch('u');
        var text := NumberOf(IntMagnitude(v, d.fl.intmax, unsigned), d.fl.comma);
        Some((Field(d.fl.left, d.fl.zero, d.fl.comma, d.fw, if d.pr < 0 then 0 else d.pr,
                    LeadSign(d.fl, IntNegative(v, d.fl.intmax, unsigned)), text, 0, [], 3, |text|), d.args[1..]))
    else if IsRadix(c) then
      if d.args == [] || !d.args[0].Int? || RadixPrecision(c, d.pr) >= NUMSZ then None
      else Some((RadixField(c, d.fl, d.fw, d.pr, d.args[0].v), d.args[1..]))
    else Some((Field(false, false, false, 0, 0, [], [c], 0, [], 0, 0), d.args))
  }

  /** The text that a format and its arguments stand for; none where C gives no meaning. */
  function Render(fmt: Text, f: nat, args: seq<Arg>): Option<Text>
    requires InText(fmt, f)
    decreases |fmt| - f
  {
    var e := LiteralEnd(fmt, f);
    if fmt[e] == 0 then Some(fmt[f..e])
    else
      InTextNext(fmt, e);
      var d := DirectiveAt(fmt, e + 1, args);
      if d.None? then None
      else
        InTextNext(fmt, d.value.code);
        var x := FieldOf(fmt[d.value.code], d.value);
        if x.None? then None
        else
          var rest := Render(fmt, d.value.code + 1, x.value.1);
          if rest.None? then None else Some(fmt[f..e] + x.value.0.Shown() + rest.value)
  }
}

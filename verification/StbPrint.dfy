// vsprintfcb and vsnprintf (rizzos/lib/stb_sprintf.h:349-1355, 1393-1458), without floats
// and %n.
module StbPrints {
  import opened Options
  import opened Bits
  import opened StbWords
  import opened StbScans
  import opened StbOutputs
  import opened StbFields
  import opened StbLiterals
  import opened StbDecimals
  import opened StbRadixes
  import opened StbFormats

  // ----- one conversion

  /** %s: the string or "null", cut at the precision. */
  method ConvertString(a: Arg, pr: int) returns (text: Text)
    requires StringText(a, pr).Some?
    ensures StringText(a, pr) == Some(text)
  {
    match a
    case Null =>
      var s := Block(NullText() + [0, 0, 0, 0], 0);
      var l := StrlenLimited(s, StringLimit(pr));
      text := s.bytes[..l];
      NullLength(s.bytes, StringLimit(pr), l);
    case Str(s) =>
      var l := StrlenLimited(s, StringLimit(pr));
      LengthUnique(s.bytes, StringLimit(pr), l, Length(s.bytes, StringLimit(pr)));
      text := s.bytes[..l];
  }

  lemma NullLength(s: Text, limit: nat, l: nat)
    requires s == NullText() + [0, 0, 0, 0] && IsLength(s, limit, l)
    ensures s[..l] == if limit < 4 then NullText()[..limit] else NullText()
  {
    if limit >= 4 {
      assert s[4] == 0 && s[..4] == NullText();
    }
  }

  /** %d, %i and %u. */
  method ConvertNumber(v: int, fl: Flags, unsigned: bool) returns (text: Text, lead: Text)
    ensures text == NumberOf(IntMagnitude(v, fl.intmax, unsigned), fl.comma)
    ensures lead == LeadSign(fl, IntNegative(v, fl.intmax, unsigned))
  {
    hide NumberText;
    var num := new nat[NUMSZ];
    var n64 := IntMagnitude(v, fl.intmax, unsigned);
    var s, l := ConvertInteger(num, n64, fl.comma);
    NumberBytes(n64, fl.comma);
    text := num[s..];
    lead := LeadSign(fl, IntNegative(v, fl.intmax, unsigned));
  }

  /** %b, %o, %x and %p. */
  method ConvertBits(c: Byte, fl0: Flags, fw: int, pr0: int, v: int) returns (x: Field)
    requires IsRadix(c) && RadixPrecision(c, pr0) < NUMSZ
    ensures x == RadixField(c, fl0, fw, pr0, v)
  {
    hide RadixText, Prefix, RadixFlags, Unsigned;
    var num := new nat[NUMSZ];
    var fl, pr := RadixFlags(c, fl0), RadixPrecision(c, pr0);
    var r, upper := RadixOf(c), IsUpper(c);
    var n64 := Unsigned(v, fl.intmax);
    var lead := Prefix(c, fl.alt, n64);
    RadixBytes(n64, r, upper, fl.comma, pr);
    if n64 == 0 && pr == 0 {
      NothingShown(r, upper, fl.comma);
      return Field(fl.left, fl.zero, fl.comma, fw, pr, lead, [], 0, [], 0, 0);
    }
    var s := ConvertRadix(num, n64, r, upper, fl.comma, pr);
    var text: seq<Byte> := num[s..];
    x := Field(fl.left, fl.zero, fl.comma, fw, pr, lead, text, 0, [], r.Group(), |text|);
  }

  lemma NothingShown(r: Radix, upper: bool, comma: bool)
    ensures RadixText(0, r, upper, comma, 0) == []
  {
  }

  /** The switch over the conversion character. */
  method Convert(c: Byte, d: Directive) returns (x: Field, args: seq<Arg>)
    requires FieldOf(c, d).Some?
    ensures FieldOf(c, d) == Some((x, args))
  {
    hide StringText, NumberText, IntMagnitude, IntNegative, LeadSign, NumberOf, RadixField;
    args := d.args;
    var text, lead;
    if c == Ch('s') {
      text := ConvertString(args[0], d.pr);
      x := Field(d.fl.left, d.fl.zero, d.fl.comma, d.fw, 0, [], text, 0, [], 0, 0);
      args := args[1..];
    } else if c == Ch('c') {
      text := [args[0].v % 256];
      x := Field(d.fl.left, d.fl.zero, d.fl.comma, d.fw, 0, [], text, 0, [], 0, 0);
      args := args[1..];
    } else if c == Ch('u') || c == Ch('i') || c == Ch('d') {
      text, lead := ConvertNumber(args[0].v, d.fl, c == Ch('u'));
      var pr := d.pr;
      if pr < 0 {
        pr := 0;
      }
      x := Field(d.fl.left, d.fl.zero, d.fl.comma, d.fw, pr, lead, text, 0, [], 3, |text|);
      args := args[1..];
    } else if IsRadix(c) {
      x := ConvertBits(c, d.fl, d.fw, d.pr, args[0].v);
      args := args[1..];
    } else {
      x := Field(false, false, false, 0, 0, [], [c], 0, [], 0, 0);
    }
  }

  // ----- the main loop

  /** After the literal text: the end, or a directive, its field and the rest. */
  lemma RenderStep(fmt: Text, f: nat, args: seq<Arg>) returns (e: nat, d: Directive, x: (Field, seq<Arg>))
    requires InText(fmt, f) && Render(fmt, f, args).Some?
    ensures e == LiteralEnd(fmt, f)
    ensures fmt[e] == 0 ==> Render(fmt, f, args) == Some(fmt[f..e])
    ensures fmt[e] != 0 ==> InText(fmt, e + 1) && DirectiveAt(fmt, e + 1, args) == Some(d) && e < d.code < |fmt|
    ensures fmt[e] != 0 ==> FieldOf(fmt[d.code], d) == Some(x) && InText(fmt, d.code + 1)
    ensures fmt[e] != 0 ==> Render(fmt, d.code + 1, x.1).Some?
    ensures fmt[e] != 0 ==> (
      Render(fmt, f, args) == Some(fmt[f..e] + x.0.Shown() + Render(fmt, d.code + 1, x.1).value))
  {
    hide LiteralEnd, DirectiveAt, Field.Shown, InText;
    e, d := LiteralEnd(fmt, f), Directive(NO_FLAGS, 0, 0, 0, []);
    x := (Field(false, false, false, 0, 0, [], [], 0, [], 0, 0), []);
    if fmt[e] != 0 {
      InTextNext(fmt, e);
      d := DirectiveAt(fmt, e + 1, args).value;
      InTextNext(fmt, d.code);
      x := FieldOf(fmt[d.code], d).value;
    }
  }

  lemma JoinRest(o: Text, a: Text, b: Text, rest: Text)
    ensures o + (a + b + rest) == o + a + b + rest
  {
  }

  /** vsprintfcb up to the end of the format. */
  method PrintAll(p: Printer, fmt: Block, args0: seq<Arg>)
    requires fmt.Aligned() && InText(fmt.bytes, 0) && Render(fmt.bytes, 0, args0).Some?
    requires p.Valid() && p.Room(|Render(fmt.bytes, 0, args0).value|)
    modifies p`tlen, p`calls, p`buf, p`bf, p`cbuf, p`count, p`length, p`chunks, p.mem
    ensures p.Valid() && p.Output() == old(p.Output()) + Render(fmt.bytes, 0, args0).value
  {
    hide Printer.Valid, Printer.Output, Render, FieldOf, DirectiveAt, LiteralEnd, InText, Field.Shown, Block.Aligned;
    ghost var total := p.Output() + Render(fmt.bytes, 0, args0).value;
    var f, args := 0, args0;
    while true
      invariant f <= |fmt.bytes| && InText(fmt.bytes, f) && Render(fmt.bytes, f, args).Some?
      invariant p.Valid() && p.Room(|Render(fmt.bytes, f, args).value|)
      invariant p.Output() + Render(fmt.bytes, f, args).value == total
      decreases |fmt.bytes| - f
    {
      ghost var o, start := p.Output(), f;
      ghost var e, dir, field := RenderStep(fmt.bytes, f, args);
      f := CopyLiteral(p, fmt, f);
      if fmt.bytes[f] == 0 {
        return;
      }
      var d := ReadDirective(fmt.bytes, f + 1, args);
      var x;
      x, args := Convert(fmt.bytes[d.code], d);
      Scopy(p, x);
      JoinRest(o, fmt.bytes[start..f], x.Shown(), Render(fmt.bytes, d.code + 1, args).value);
      f := d.code + 1;
    }
  }

  ghost function Meaning(fmt: Block, args: seq<Arg>): Text
    requires InText(fmt.bytes, 0) && Render(fmt.bytes, 0, args).Some?
  {
    Render(fmt.bytes, 0, args).value
  }

  lemma AllInBuffer(p: Printer)
    requires p.Valid() && p.callback.NoCallback?
    ensures p.Output() == p.mem[p.dest..p.bf] && p.buf == p.dest && p.tlen == 0 && p.Untouched()
  {
    JoinedNone();
  }

  lemma AllHandedOver(p: Printer)
    requires p.Valid() && p.bf == p.buf
    ensures p.Output() == Joined(p.chunks) && p.tlen == |p.Output()| && ChunkSizes(p.chunks) && p.Untouched()
  {
    assert p.mem[p.buf..p.bf] == [];
  }

  /**
   * vsprintfcb.  Without a callback the text and a NUL are in the buffer; with one the
   * chunks that were handed over join to the text.  Either way the length is returned.
   */
  method Vsprintfcb(p: Printer, fmt: Block, args: seq<Arg>) returns (n: nat)
    requires fmt.Aligned() && InText(fmt.bytes, 0) && Render(fmt.bytes, 0, args).Some?
    requires p.Valid() && p.Output() == [] && p.Room(|Meaning(fmt, args)| + 1)
    modifies p`tlen, p`calls, p`buf, p`bf, p`cbuf, p`count, p`length, p`chunks, p.mem
    ensures n == |Meaning(fmt, args)|
    ensures p.Untouched()
    ensures p.callback.NoCallback? ==> (
      p.dest + n < p.mem.Length && p.mem[p.dest..p.dest + n] == Meaning(fmt, args) && p.mem[p.dest + n] == 0)
    ensures !p.callback.NoCallback? ==> p.Valid() && Joined(p.chunks) == Meaning(fmt, args) && ChunkSizes(p.chunks)
  {
    hide Printer.Valid, Printer.Output, Printer.SameElsewhere, Render, Block.Aligned, InText, Joined, ChunkSizes;
    PrintAll(p, fmt, args);
    p.Bounds();
    ghost var text := Meaning(fmt, args);
    if p.callback.NoCallback? {
      AllInBuffer(p);
      p.RoomMeansOpen(1);
      p.OutsideDelivered();
      ghost var m := p.mem[..];
      p.PutElsewhere(m, p.bf, 0);
      p.mem[p.bf] := 0;
      assert p.mem[..] == m[p.bf := 0];
      assert p.mem[p.dest..p.bf] == text;
    } else {
      p.CheckBuffer(CHUNK_MAX - 1);
      p.Bounds();
      AllHandedOver(p);
    }
    n := p.tlen + (p.bf - p.buf);
  }

  lemma Delivered(p: Printer)
    requires p.Valid() && p.callback.Clamp?
    ensures var t := Joined(p.chunks);
      && p.length == |t| && p.cbuf == p.dest + Min(|t|, p.limit) <= p.mem.Length
      && p.mem[p.dest..p.cbuf] == t[..Min(|t|, p.limit)]
    ensures p.Untouched()
  {
  }

  /**
   * vsnprintf with room for at least the NUL: the first characters of the text, as many as
   * fit before the NUL, and the length of the whole.  Nothing else is written, apart from
   * the context's own buffer.
   */
  method Vsnprintf(mem: array<Byte>, buf: nat, count: nat, tmp: nat, fmt: Block, args: seq<Arg>) returns (length: nat)
    requires fmt.Aligned() && InText(fmt.bytes, 0) && Render(fmt.bytes, 0, args).Some?
    requires count >= 1 && buf + count <= mem.Length && tmp + CHUNK_MAX <= mem.Length
    requires tmp + CHUNK_MAX <= buf || buf + count <= tmp
    modifies mem
    ensures length == |Meaning(fmt, args)|
    ensures var l := Min(length, count - 1);
      mem[buf..buf + l] == Meaning(fmt, args)[..l] && mem[buf + l] == 0
    ensures forall i: nat :: (
      i < mem.Length && !(buf <= i < buf + count) && !(tmp <= i < tmp + CHUNK_MAX) ==> mem[i] == old(mem[i]))
  {
    hide Printer.Valid, Printer.Output, Render, Block.Aligned, InText, Joined;
    var c := new Printer(mem, Clamp, buf, count, tmp);
    var n := Vsprintfcb(c, fmt, args);
    Delivered(c);
    ghost var text := Meaning(fmt, args);
    ghost var full := mem[buf..c.cbuf];
    var l := c.cbuf - buf;
    if l >= count {
      l := count - 1;
    }
    mem[buf + l] := 0;
    assert mem[buf..buf + l] == full[..l];
    length := c.length;
  }
}

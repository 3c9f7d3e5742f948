// One formatted field: padding, leader, zeros, text and tail
// (rizzos/lib/stb_sprintf.h:1155-1328).
module StbFields {
  import opened StbOutputs
  import Numerals

  /** The counter that lets a comma fall before every group, counted from the end of n places. */
  function CommaStart(c: nat, n: nat): (cs: nat)
    ensures cs <= c
  {
    c - n % (c + 1)
  }

  /**
   * What a conversion hands to scopy: flags, width and precision, the sign or prefix, the
   * characters, zeros after them, a tail, and in `cs` the digits between commas and the
   * number of characters that count for them.
   */
  datatype Field = Field(left: bool, zero: bool, comma: bool, fw: int, pr: int,
                         lead: Text, text: Text, tz: nat, tail: Text, group: nat, counted: nat)
  {
    /** The precision is raised to the length of the text. */
    function Precision(): nat {
      if pr < |text| then |text| else pr
    }

    /** The length without any padding for the width. */
    function Core(): nat {
      Precision() + |lead| + |tail| + tz
    }

    function Pad(): nat {
      if fw < Core() then 0 else fw - Core()
    }

    /** With a leading zero flag the padding is zeros, unless the field is left justified. */
    predicate ZeroPadded() {
      zero && !left
    }

    function Spaces(): nat {
      if ZeroPadded() then 0 else Pad()
    }

    /** The larger of the two paddings, not their sum. */
    function Zeros(): nat {
      var z := Precision() - |text|;
      if ZeroPadded() && Pad() > z then Pad() else z
    }

    /** Commas go into the zeros only when those are wanted for the width. */
    predicate CommasInZeros() {
      comma && (left || zero)
    }

    /** Where the comma counter starts. */
    function FirstPlace(): (cs: nat)
      ensures cs <= group
    {
      if CommasInZeros() then CommaStart(group, Zeros() + counted) else 0
    }

    function Before(): Text {
      if left then [] else Repeat(SPACE, Spaces())
    }

    function After(): Text {
      if left then Repeat(SPACE, Spaces()) else []
    }

    function ZeroText(): Text {
      Padding(Zeros(), CommasInZeros(), group, FirstPlace())
    }

    /** The field as it appears. */
    function Shown(): (t: Text) {
      Before() + lead + ZeroText() + text + Repeat(ZERO, tz) + tail + After()
    }
  }

  /** The field is as wide as asked, unless a precision above the text meets the zero flag. */
  lemma ShownWidth(f: Field)
    ensures |f.Shown()| >= f.Core()
    ensures |f.Shown()| == (if f.fw > f.Core() then f.fw else f.Core())
      <==> !(f.ZeroPadded() && f.pr > |f.text| && f.fw > f.Core())
  {
  }

  /** The field of "%08.3d" for the number 5: six characters instead of eight. */
  lemma NarrowerThanAsked()
    ensures var f := Field(false, true, false, 8, 3, [], [ZERO + 5], 0, [], 3, 1);
      |f.Shown()| == 6 && f.Shown()[5] == ZERO + 5 && forall k :: 0 <= k < 5 ==> f.Shown()[k] == ZERO
  {
    var f := Field(false, true, false, 8, 3, [], [ZERO + 5], 0, [], 3, 1);
    assert f.Zeros() == 5 && f.Spaces() == 0;
    assert f.Shown() == f.ZeroText() + [ZERO + 5];
    forall k | 0 <= k < 5
      ensures f.ZeroText()[k] == ZERO
    {
    }
  }

  /** What is written of the field, piece by piece. */
  lemma PiecesJoin(o: Text, a: Text, b: Text, c: Text, d: Text, e: Text, g: Text, h: Text)
    ensures o + a + b + c + d + e + g + h == o + (a + b + c + d + e + g + h)
  {
  }

  /** Spaces, leader and zeros; the leader comes out even when there is no padding. */
  method FieldFront(p: Printer, f: Field, fw0: nat, pr: nat, comma: bool) returns (fw: nat)
    requires p.Valid() && p.Room(|f.Before() + f.lead + f.ZeroText()|)
    requires fw0 == f.Spaces() && pr == f.Zeros() && comma == f.CommasInZeros()
    modifies p`tlen, p`calls, p`buf, p`bf, p`cbuf, p`count, p`length, p`chunks, p.mem
    ensures p.Valid() && p.Output() == old(p.Output()) + f.Before() + f.lead + f.ZeroText()
    ensures f.left ==> fw == fw0
  {
    hide Printer.Valid, Printer.Output, Padding, Repeat, Place, CommaStart;
    hide Field.Spaces, Field.Zeros, Field.CommasInZeros;
    fw := fw0;
    var lead := f.lead;
    RepeatNone(SPACE);
    NoPadding(f.group);
    if fw + pr != 0 {
      if !f.left {
        p.Fill(SPACE, fw);
        fw := 0;
      }
      p.Copy(lead, false);
      lead := [];
      var c := f.group;
      var cs := if comma then CommaStart(c, pr + f.counted) else 0;
      p.LeadingZeros(pr, comma, c, cs);
    }
    p.Copy(lead, false);
  }

  /** scopy. */
  method Scopy(p: Printer, f: Field)
    requires p.Valid() && p.Room(|f.Shown()|)
    modifies p`tlen, p`calls, p`buf, p`bf, p`cbuf, p`count, p`length, p`chunks, p.mem
    ensures p.Valid() && p.Output() == old(p.Output()) + f.Shown()
  {
    hide Printer.Valid, Printer.Output, Padding, Repeat, Place;
    ghost var o := p.Output();
    var l := |f.text|;
    var pr := f.pr;
    if pr < l {
      pr := l;
    }
    var n := pr + |f.lead| + |f.tail| + f.tz;
    var fw := f.fw;
    if fw < n {
      fw := n;
    }
    fw := fw - n;
    pr := pr - l;
    var comma := f.comma;
    if !f.left {
      if f.zero {
        pr := if fw > pr then fw else pr;
        fw := 0;
      } else {
        comma := false;
      }
    }
    assert pr == f.Zeros() && fw == f.Spaces() && comma == f.CommasInZeros();
    hide Field.Spaces, Field.Zeros, Field.CommasInZeros, Field.ZeroText;
    fw := FieldFront(p, f, fw, pr, comma);
    p.Copy(f.text, true);
    p.Fill(ZERO, f.tz);
    p.Copy(f.tail, false);
    RepeatNone(SPACE);
    if f.left {
      if fw > 0 {
        p.Fill(SPACE, fw);
      }
    }
    PiecesJoin(o, f.Before(), f.lead, f.ZeroText(), f.text, Repeat(ZERO, f.tz), f.tail, f.After());
  }

  lemma NoPadding(group: nat)
    ensures forall comma, cs {:trigger Padding(0, comma, group, cs)} :: Padding(0, comma, group, cs) == []
  {
  }

  lemma MarkAt(c: nat, n: nat, k: nat)
    requires k < n
    ensures Place(c, CommaStart(c, n), k) == c <==> (n - 1 - k) % (c + 1) == c
  {
    var m := c + 1;
    var q, r := n / m, n % m;
    assert n == m * q + r;
    var a, b := (c - r + k) / m, (c - r + k) % m;
    assert c - r + k == m * a + b;
    var x := n - 1 - k;
    assert x == m * (q - a) + c - 1 - b by {
      assert m * (q - a) == m * q - m * a by { Minus(m, q, a); }
    }
    if b == c {
      assert x == m * (q - a - 1) + c by { Minus(m, q - a, 1); }
      RemainderOf(x, m, q - a - 1, c);
    } else {
      RemainderOf(x, m, q - a, c - 1 - b);
    }
  }

  lemma RemainderOf(x: int, m: nat, q: int, r: nat)
    requires r < m && x == m * q + r && x >= 0
    ensures x % m == r
  {
    if q < 0 {
      AtLeastOnce(m, -q);
      Negate(m, q);
    }
    QuotientIs(x, m, q, r);
  }

  /**
   * With commas in the zeros, the zeros and the number together have a comma exactly
   * behind every group from the right, as the number has by itself.
   */
  lemma PaddedCommas(f: Field, t: seq<nat>, j: nat)
    requires f.CommasInZeros() && f.group > 0 && f.counted == |f.text| && COMMA !in t
    requires f.text == Numerals.Grouped(t, f.group) && j < |f.ZeroText() + f.text|
    ensures (f.ZeroText() + f.text)[|f.ZeroText() + f.text| - 1 - j] == COMMA <==> j % (f.group + 1) == f.group
  {
    hide Padding, CommaStart, Place, Numerals.Grouped;
    var z, n := f.Zeros(), f.Zeros() + |f.text|;
    if j < |f.text| {
      Numerals.CommaPlaces(t, f.group, j);
    } else {
      MarkAt(f.group, n, n - 1 - j);
      PaddingAt(z, f.group, f.FirstPlace(), n - 1 - j);
    }
  }
}

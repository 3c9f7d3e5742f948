// Copying the format text up to the next '%' (rizzos/lib/stb_sprintf.h:391-432).
module StbLiterals {
  import opened StbWords
  import opened StbScans
  import opened StbOutputs

  /** The closing NUL is still ahead. */
  ghost predicate InText(fmt: Text, f: nat) {
    exists k :: f <= k < |fmt| && fmt[k] == 0
  }

  lemma InTextNext(fmt: Text, f: nat)
    requires InText(fmt, f)
    ensures f < |fmt| && (fmt[f] != 0 ==> InText(fmt, f + 1))
  {
  }

  /** Where the literal text ends: at a '%' or at the closing NUL. */
  function LiteralEnd(fmt: Text, f: nat): (e: nat)
    requires InText(fmt, f)
    ensures f <= e < |fmt| && (fmt[e] == PERCENT || fmt[e] == 0)
    ensures forall k :: f <= k < e ==> fmt[k] != PERCENT && fmt[k] != 0
    ensures InText(fmt, e)
    decreases |fmt| - f
  {
    InTextNext(fmt, f);
    if fmt[f] == PERCENT || fmt[f] == 0 then f else LiteralEnd(fmt, f + 1)
  }

  /** Where the copy goes on: in the byte loop or at one of its two entry points. */
  datatype Entry = Loop | TestPercent | TestEnd

  lemma LiteralWord(b: Block, f0: nat, f: nat)
    requires b.Aligned() && InText(b.bytes, f0) && f0 <= f <= LiteralEnd(b.bytes, f0) && b.AlignedAt(f)
    ensures f + 4 <= |b.bytes|
    ensures PercentMark(b.WordAt(f)) != 0 || EndMark(b.WordAt(f)) != 0 || f + 4 <= LiteralEnd(b.bytes, f0)
    ensures PercentMark(b.WordAt(f)) == 0 ==> b.bytes[f] != PERCENT
  {
    hide PercentMark, EndMark, ZeroMark, Word, LiteralEnd;
    WholeWord(b, f);
    WordIs(b, f);
    PercentMarkMeaning(b.bytes[f], b.bytes[f + 1], b.bytes[f + 2], b.bytes[f + 3]);
    ZeroMarkMeaning(b.bytes[f], b.bytes[f + 1], b.bytes[f + 2], b.bytes[f + 3]);
  }

  lemma RoomShrinks(p: Printer, n: nat, m: nat)
    requires p.Valid() && p.Room(n) && m <= n
    ensures p.Room(m)
  {
  }

  /**
   * The fast copy: byte by byte up to an aligned address, then word by word; a word that
   * holds a '%' or the end, or that no longer fits, is taken byte by byte.
   */
  method CopyLiteral(p: Printer, fmt: Block, f0: nat) returns (f: nat)
    requires fmt.Aligned() && InText(fmt.bytes, f0)
    requires p.Valid() && p.Room(LiteralEnd(fmt.bytes, f0) - f0)
    modifies p`tlen, p`calls, p`buf, p`bf, p`cbuf, p`count, p`length, p`chunks, p.mem
    ensures f == LiteralEnd(fmt.bytes, f0)
    ensures p.Valid() && p.Output() == old(p.Output()) + fmt.bytes[f0..f]
  {
    hide Printer.Valid, Printer.Output, LiteralEnd, InText, PercentMark, EndMark, ZeroMark, Word;
    hide Block.Aligned, Block.AlignedAt, Block.WordAt;
    ghost var e := LiteralEnd(fmt.bytes, f0);
    f := f0;
    var entry := Loop;
    assert fmt.bytes[f0..f0] == [];
    while true
      invariant f0 <= f <= e && p.Valid() && p.Room(e - f)
      invariant p.Output() == old(p.Output()) + fmt.bytes[f0..f]
      invariant entry == TestEnd ==> fmt.bytes[f] != PERCENT
      decreases e - f, if entry == Loop then 1 else 0
    {
      p.Bounds();
      if entry == Loop && fmt.AlignedAt(f) {
        LiteralWord(fmt, f0, f);
        var v := fmt.WordAt(f);
        if PercentMark(v) != 0 {
          entry := TestPercent;
        } else if EndMark(v) != 0 {
          entry := TestEnd;
        } else if !p.callback.NoCallback? && CHUNK_MAX - (p.bf - p.buf) < 4 {
          entry := TestPercent;
        } else {
          RoomShrinks(p, e - f, 4);
          p.PutFour(fmt.bytes[f], fmt.bytes[f + 1], fmt.bytes[f + 2], fmt.bytes[f + 3]);
          TakeMore(old(p.Output()), fmt.bytes, f0, f, 4);
          f := f + 4;
        }
      } else {
        if entry != TestEnd && fmt.bytes[f] == PERCENT {
          return;
        }
        if fmt.bytes[f] == 0 {
          return;
        }
        p.CheckBuffer(1);
        p.Bounds();
        p.RoomMeansOpen(e - f);
        p.Put(fmt.bytes[f]);
        TakeMore(old(p.Output()), fmt.bytes, f0, f, 1);
        f := f + 1;
        entry := Loop;
      }
    }
  }
}

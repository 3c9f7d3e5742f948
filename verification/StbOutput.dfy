// The output side of vsprintfcb (rizzos/lib/stb_sprintf.h:363-389, 1174-1341): characters
// go to a buffer that a callback takes away, or to one buffer to the end.
module StbOutputs {
  import opened Bits
  import Numerals

  /** STB_SPRINTF_MIN. */
  const CHUNK_MAX: nat := 512

  type Text = seq<Byte>

  /**
   * Who takes the output: nobody, a callback whose k-th call answers with the address of
   * the next buffer, or stbsp__clamp_callback.
   */
  datatype Callback = NoCallback | Chunks(next: nat -> nat) | Clamp

  function Min(a: nat, b: nat): nat {
    if a < b then a else b
  }

  // ----- what was handed over

  ghost function Joined(chunks: seq<Text>): Text {
    if chunks == [] then [] else Joined(chunks[..|chunks| - 1]) + chunks[|chunks| - 1]
  }

  lemma JoinedPush(chunks: seq<Text>, c: Text)
    ensures Joined(chunks + [c]) == Joined(chunks) + c
  {
    assert (chunks + [c])[..|chunks|] == chunks;
  }

  /** No chunk is empty and none is longer than the buffer. */
  ghost predicate ChunkSizes(chunks: seq<Text>) {
    forall k :: 0 <= k < |chunks| ==> 0 < |chunks[k]| <= CHUNK_MAX
  }

  ghost predicate HandsOutBuffers(next: nat -> nat, size: nat) {
    forall k: nat :: next(k) + CHUNK_MAX <= size
  }

  /** The state of vsprintfcb's output and of the stbsp__context behind it. */
  class Printer {
    const mem: array<Byte>
    const callback: Callback
    /** The buffer and the count the caller gave, and the context's own buffer. */
    const dest: nat
    const limit: nat
    const tmp: nat

    var buf: nat
    var bf: nat
    var tlen: nat
    var calls: nat

    /** stbsp__context. */
    var cbuf: nat
    var count: nat
    var length: nat

    ghost var chunks: seq<Text>

    /** The memory as it was at the start. */
    ghost const initial: seq<Byte>

    /** The places that may be written. */
    ghost predicate Mine(i: nat) {
      match callback
      case NoCallback => dest <= i
      case Chunks(_) => true
      case Clamp => dest <= i < dest + limit || tmp <= i < tmp + CHUNK_MAX
    }

    /** No other place has changed. */
    ghost predicate SameElsewhere(m: seq<Byte>) {
      |initial| == |m| && forall i: nat :: i < |m| && !Mine(i) ==> m[i] == initial[i]
    }

    ghost predicate Untouched()
      reads mem
    {
      SameElsewhere(mem[..])
    }

    /** The context after `sent` has been delivered: its first part is in the caller's buffer. */
    ghost predicate ContextValid(sent: Text)
      reads this`cbuf, this`count, this`length, mem
    {
      && dest + limit <= mem.Length && tmp + CHUNK_MAX <= mem.Length
      && (tmp + CHUNK_MAX <= dest || dest + limit <= tmp)
      && length == |sent| && cbuf == dest + Min(|sent|, limit) && count == limit - Min(|sent|, limit)
      && mem[dest..cbuf] == sent[..Min(|sent|, limit)]
    }

    /** Where the clamp callback lets the next characters go. */
    function NextBuffer(): nat
      reads this`cbuf, this`count
    {
      if count >= CHUNK_MAX then cbuf else tmp
    }

    ghost predicate Valid()
      reads this, mem
    {
      && buf <= bf <= mem.Length && tlen == |Joined(chunks)| && ChunkSizes(chunks) && Untouched()
      && match callback {
        case NoCallback => chunks == [] && buf == dest
        case Chunks(next) => bf <= buf + CHUNK_MAX <= mem.Length && HandsOutBuffers(next, mem.Length)
        case Clamp => bf <= buf + CHUNK_MAX <= mem.Length && ContextValid(Joined(chunks)) && buf == NextBuffer()
      }
    }

    /** Everything written so far. */
    ghost function Output(): Text
      reads this, mem
      requires Valid()
    {
      Joined(chunks) + mem[buf..bf]
    }

    /** Without a callback the buffer has to be long enough; that is up to the caller. */
    ghost predicate Room(n: nat)
      reads this, mem
      requires Valid()
    {
      callback.NoCallback? ==> dest + |Output()| + n <= mem.Length
    }

    /** One more character fits. */
    predicate Open()
      reads this
    {
      if callback.NoCallback? then bf < mem.Length else bf < buf + CHUNK_MAX
    }

    lemma RoomMeansOpen(n: nat)
      requires Valid() && n > 0 && Room(n) && (!callback.NoCallback? ==> bf < buf + CHUNK_MAX)
      ensures Open()
    {
      JoinedNone();
    }

    /**
     * Before the first character: the caller's buffer, or the answer of the clamp callback
     * to a call without characters.
     */
    constructor (mem: array<Byte>, callback: Callback, dest: nat, limit: nat, tmp: nat)
      requires dest <= mem.Length
      requires match callback {
        case NoCallback => true
        case Chunks(next) => dest + CHUNK_MAX <= mem.Length && HandsOutBuffers(next, mem.Length)
        case Clamp =>
          && dest + limit <= mem.Length && tmp + CHUNK_MAX <= mem.Length
          && (tmp + CHUNK_MAX <= dest || dest + limit <= tmp)
      }
      modifies mem
      ensures Valid() && Output() == [] && initial == old(mem[..])
      ensures this.mem == mem && this.callback == callback && this.dest == dest && this.limit == limit && this.tmp == tmp
    {
      this.mem, this.callback, this.dest, this.limit, this.tmp := mem, callback, dest, limit, tmp;
      buf, bf, tlen, calls := dest, dest, 0, 0;
      cbuf, count, length := dest, limit, 0;
      chunks := [];
      initial := mem[..];
      new;
      JoinedNone();
      hide Joined, HandsOutBuffers;
      if callback.Clamp? {
        assert mem[dest..dest] == [];
        buf := ClampCallback(0, 0, []);
        NextFits([]);
        bf := buf;
      }
    }

    /** The next place is outside of what the caller already has. */
    lemma OutsideDelivered()
      requires Valid() && Open()
      ensures Mine(bf)
      ensures callback.Clamp? ==> dest <= cbuf <= mem.Length && (bf < dest || bf >= cbuf)
    {
      hide ChunkSizes, Printer.SameElsewhere;
    }

    lemma PutElsewhere(m: seq<Byte>, at: nat, b: Byte)
      requires SameElsewhere(m) && at < |m| && Mine(at)
      ensures SameElsewhere(m[at := b])
    {
    }

    lemma RangeElsewhere(m: seq<Byte>, m': seq<Byte>, at: nat, len: nat)
      requires SameElsewhere(m) && |m'| == |m| && callback.Clamp? && dest <= at && at + len <= dest + limit
      requires forall i: nat :: i < |m| && !(at <= i < at + len) ==> m'[i] == m[i]
      ensures SameElsewhere(m')
    {
    }

    /** *bf++ = b. */
    method Put(b: Byte)
      requires Valid() && Open()
      modifies this`bf, mem
      ensures Valid() && Output() == old(Output()) + [b] && bf == old(bf) + 1
    {
      hide ChunkSizes, Joined, HandsOutBuffers, Min;
      hide Printer.SameElsewhere, Printer.Mine;
      OutsideDelivered();
      ghost var text := mem[buf..bf];
      PutElsewhere(mem[..], bf, b);
      ghost var m := mem[..][bf := b];
      mem[bf] := b;
      assert mem[..] == m;
      assert callback.Clamp? ==> mem[dest..cbuf] == old(mem[dest..cbuf]);
      assert mem[buf..bf] == text;
      bf := bf + 1;
      assert mem[buf..bf] == text + [b];
    }

    /** The part of the callback that fills the caller's buffer, unless it was filled directly. */
    method Deliver(from: nat, len: nat)
      requires 0 < len <= CHUNK_MAX && dest <= cbuf && cbuf + len <= dest + limit <= mem.Length && from + len <= mem.Length
      requires from == cbuf || from + len <= dest || from >= dest + limit
      requires callback.Clamp? && Untouched()
      modifies mem
      ensures Untouched()
      ensures mem[dest..cbuf + len] == old(mem[dest..cbuf]) + old(mem[from..from + len])
    {
      hide Printer.SameElsewhere;
      ghost var m := mem[..];
      if from != cbuf {
        CopyDown(cbuf, from, len);
      }
      RangeElsewhere(m, mem[..], cbuf, len);
      assert mem[cbuf..cbuf + len] == m[from..from + len];
      SliceSame(m, mem[..], dest, cbuf, cbuf + len);
    }

    /** stbsp__clamp_callback. */
    method ClampCallback(from: nat, len0: nat, ghost sent: Text) returns (p: nat)
      requires ContextValid(sent) && len0 <= CHUNK_MAX && from + len0 <= mem.Length
      requires len0 > 0 ==> from == NextBuffer()
      requires callback.Clamp? && Untouched()
      modifies this`cbuf, this`count, this`length, mem
      ensures ContextValid(sent + old(mem[from..from + len0])) && p == NextBuffer() && Untouched()
    {
      hide Printer.Untouched;
      ghost var piece, kept := mem[from..from + len0], mem[dest..cbuf];
      DeliverMore(sent, piece, limit);
      length := length + len0;
      var len := len0;
      if len > count {
        len := count;
      }
      TakeSlice(from, len, len0);
      if len != 0 {
        Deliver(from, len);
        cbuf := cbuf + len;
        count := count - len;
      }
      assert mem[dest..cbuf] == kept + piece[..len];
      if count <= 0 {
        return tmp;
      }
      return if count >= CHUNK_MAX then cbuf else tmp;
    }

    lemma TakeSlice(from: nat, len: nat, len0: nat)
      requires len <= len0 && from + len0 <= mem.Length
      ensures mem[from..from + len] == mem[from..from + len0][..len]
    {
    }

    /** The callback's copy loop, between places that do not overlap. */
    method CopyDown(to: nat, from: nat, len: nat)
      requires 0 < len && to + len <= mem.Length && from + len <= mem.Length
      requires to + len <= from || from + len <= to
      modifies mem
      ensures mem[to..to + len] == old(mem[from..from + len])
      ensures forall i :: 0 <= i < mem.Length && !(to <= i < to + len) ==> mem[i] == old(mem[i])
    {
      var d, s, se := to, from, from + len;
      while true
        invariant to <= d < to + len && s - from == d - to
        invariant mem[to..d] == old(mem[from..s])
        invariant forall i :: 0 <= i < mem.Length && !(to <= i < d) ==> mem[i] == old(mem[i])
        decreases se - s
      {
        ghost var done := mem[to..d];
        mem[d] := mem[s];
        assert mem[to..d] == done && mem[to..d + 1] == done + [mem[d]];
        assert old(mem[from..s + 1]) == old(mem[from..s]) + [old(mem[s])];
        d, s := d + 1, s + 1;
        if s >= se {
          break;
        }
      }
    }

    lemma Bounds()
      requires Valid()
      ensures buf <= bf <= mem.Length && (!callback.NoCallback? ==> bf <= buf + CHUNK_MAX)
    {
    }

    /** bf = buf = callback(buf, user, bf - buf). */
    method HandOver()
      requires Valid() && !callback.NoCallback? && bf > buf
      modifies this`tlen, this`calls, this`buf, this`bf, this`cbuf, this`count, this`length, this`chunks, mem
      ensures Valid() && Output() == old(Output()) && bf == buf
      ensures chunks == old(chunks) + [old(mem[buf..bf])]
    {
      hide Joined, Min, Printer.ContextValid, HandsOutBuffers, Printer.Untouched;
      ghost var piece := mem[buf..bf];
      JoinedPush(chunks, piece);
      var len := bf - buf;
      tlen := tlen + len;
      match callback {
        case Chunks(next) =>
          buf := next(calls);
          BufferAt(next, calls, mem.Length);
          calls := calls + 1;
        case Clamp =>
          buf := ClampCallback(buf, len, Joined(chunks));
          NextFits(Joined(chunks) + piece);
      }
      chunks := chunks + [piece];
      bf := buf;
      assert mem[buf..bf] == [];
    }

    /** The clamp callback always answers with room for a whole chunk. */
    lemma NextFits(sent: Text)
      requires ContextValid(sent)
      ensures NextBuffer() + CHUNK_MAX <= mem.Length
    {
    }

    /** stbsp__chk_cb_buf: hand over when there is no room for so many more characters. */
    method CheckBuffer(bytes: nat)
      requires Valid() && 0 < bytes < CHUNK_MAX
      modifies this`tlen, this`calls, this`buf, this`bf, this`cbuf, this`count, this`length, this`chunks, mem
      ensures Valid() && Output() == old(Output())
      ensures !callback.NoCallback? ==> bf - buf + bytes < CHUNK_MAX
    {
      hide Printer.Valid;
      Bounds();
      if !callback.NoCallback? {
        if bf - buf + bytes >= CHUNK_MAX {
          HandOver();
        }
      }
    }

    /** stbsp__cb_buf_clamp. */
    function Clamped(v: nat): (i: nat)
      requires !callback.NoCallback? ==> buf <= bf <= buf + CHUNK_MAX
      reads this
      ensures i <= v && (v > 0 && i == 0 ==> !callback.NoCallback? && bf == buf + CHUNK_MAX)
      ensures !callback.NoCallback? ==> bf + i <= buf + CHUNK_MAX
    {
      if callback.NoCallback? || v <= CHUNK_MAX - (bf - buf) then v else CHUNK_MAX - (bf - buf)
    }

    /** One 32-bit store. */
    method PutFour(b0: Byte, b1: Byte, b2: Byte, b3: Byte)
      requires Valid() && Room(4) && (!callback.NoCallback? ==> bf + 4 <= buf + CHUNK_MAX)
      modifies this`bf, mem
      ensures Valid() && Output() == old(Output()) + [b0, b1, b2, b3] && bf == old(bf) + 4
    {
      hide Printer.Valid, Printer.Output;
      ghost var text := Output();
      RoomMeansOpen(4);
      Put(b0);
      RoomMeansOpen(3);
      Put(b1);
      RoomMeansOpen(2);
      Put(b2);
      RoomMeansOpen(1);
      Put(b3);
      assert text + [b0] + [b1] + [b2] + [b3] == text + [b0, b1, b2, b3];
    }

    /** i times the same character: up to an aligned address, four at a time, the rest. */
    method FillRun(ch: Byte, i0: nat)
      requires Valid() && Room(i0) && (!callback.NoCallback? ==> bf + i0 <= buf + CHUNK_MAX)
      modifies this`bf, mem
      ensures Valid() && Output() == old(Output()) + Repeat(ch, i0) && bf == old(bf) + i0
    {
      hide Printer.Valid, Printer.Output, Repeat;
      var i := i0;
      RepeatNone(ch);
      while i != 0
        invariant 0 <= i <= i0 && bf == old(bf) + i0 - i && Valid() && Room(i)
        invariant Output() == old(Output()) + Repeat(ch, i0 - i)
        decreases i
      {
        if bf % 4 == 0 {
          break;
        }
        RoomMeansOpen(i);
        Put(ch);
        RepeatMore(ch, i0 - i, 1);
        i := i - 1;
      }
      while i >= 4
        invariant 0 <= i <= i0 && bf == old(bf) + i0 - i && Valid() && Room(i)
        invariant Output() == old(Output()) + Repeat(ch, i0 - i)
        decreases i
      {
        PutFour(ch, ch, ch, ch);
        RepeatMore(ch, i0 - i, 4);
        i := i - 4;
      }
      while i != 0
        invariant 0 <= i <= i0 && bf == old(bf) + i0 - i && Valid() && Room(i)
        invariant Output() == old(Output()) + Repeat(ch, i0 - i)
        decreases i
      {
        RoomMeansOpen(i);
        Put(ch);
        RepeatMore(ch, i0 - i, 1);
        i := i - 1;
      }
    }

    /** The loops that write spaces or plain zeros, chunk by chunk. */
    method Fill(ch: Byte, k0: nat)
      requires Valid() && Room(k0)
      modifies this`tlen, this`calls, this`buf, this`bf, this`cbuf, this`count, this`length, this`chunks, mem
      ensures Valid() && Output() == old(Output()) + Repeat(ch, k0)
    {
      hide Printer.Valid, Printer.Output, Repeat;
      var k := k0;
      RepeatNone(ch);
      while k > 0
        invariant 0 <= k <= k0 && Valid() && Room(k)
        invariant Output() == old(Output()) + Repeat(ch, k0 - k)
        decreases k, if !callback.NoCallback? && bf == buf + CHUNK_MAX then 1 else 0
      {
        Bounds();
        var i := Clamped(k);
        FillRun(ch, i);
        RepeatMore(ch, k0 - k, i);
        k := k - i;
        Bounds();
        CheckBuffer(1);
        Bounds();
      }
    }

    /** The byte-by-byte part of a copy: the characters of t from d on, i of them. */
    method CopyRun(t: Text, d: nat, i0: nat)
      requires d + i0 <= |t|
      requires Valid() && Room(i0) && (!callback.NoCallback? ==> bf + i0 <= buf + CHUNK_MAX)
      modifies this`bf, mem
      ensures Valid() && Output() == old(Output()) + t[d..d + i0] && bf == old(bf) + i0
    {
      hide Printer.Valid, Printer.Output;
      var i := i0;
      assert t[d..d] == [];
      while i != 0
        invariant 0 <= i <= i0 && bf == old(bf) + i0 - i && Valid() && Room(i)
        invariant Output() == old(Output()) + t[d..d + i0 - i]
        decreases i
      {
        RoomMeansOpen(i);
        Put(t[d + i0 - i]);
        TakeMore(old(Output()), t, d, d + i0 - i, 1);
        i := i - 1;
      }
    }

    /** The part of the string copy that moves four characters at a time, then the rest. */
    method CopyWords(t: Text, d: nat, i0: nat)
      requires d + i0 <= |t|
      requires Valid() && Room(i0) && (!callback.NoCallback? ==> bf + i0 <= buf + CHUNK_MAX)
      modifies this`bf, mem
      ensures Valid() && Output() == old(Output()) + t[d..d + i0] && bf == old(bf) + i0
    {
      hide Printer.Valid, Printer.Output;
      var i := i0;
      assert t[d..d] == [];
      while i >= 4
        invariant 0 <= i <= i0 && bf == old(bf) + i0 - i && Valid() && Room(i)
        invariant Output() == old(Output()) + t[d..d + i0 - i]
        decreases i
      {
        var s := d + i0 - i;
        PutFour(t[s], t[s + 1], t[s + 2], t[s + 3]);
        TakeMore(old(Output()), t, d, s, 4);
        i := i - 4;
      }
      TakeMore(old(Output()), t, d, d + i0 - i, i);
      CopyRun(t, d + i0 - i, i);
    }

    method CopyPart(t: Text, d: nat, i: nat, words: bool)
      requires d + i <= |t|
      requires Valid() && Room(i) && (!callback.NoCallback? ==> bf + i <= buf + CHUNK_MAX)
      modifies this`bf, mem
      ensures Valid() && Output() == old(Output()) + t[d..d + i] && bf == old(bf) + i
    {
      if words {
        CopyWords(t, d, i);
      } else {
        CopyRun(t, d, i);
      }
    }

    /** The loops that copy the leader or the tail, and, by words, the string. */
    method Copy(t: Text, words: bool)
      requires Valid() && Room(|t|)
      modifies this`tlen, this`calls, this`buf, this`bf, this`cbuf, this`count, this`length, this`chunks, mem
      ensures Valid() && Output() == old(Output()) + t
    {
      hide Printer.Valid, Printer.Output;
      var n := |t|;
      assert t[0..0] == [];
      while n > 0
        invariant 0 <= n <= |t| && Valid() && Room(n)
        invariant Output() == old(Output()) + t[0..|t| - n]
        decreases n, if !callback.NoCallback? && bf == buf + CHUNK_MAX then 1 else 0
      {
        Bounds();
        var i := Clamped(n);
        CopyPart(t, |t| - n, i, words);
        TakeMore(old(Output()), t, 0, |t| - n, i);
        n := n - i;
        Bounds();
        CheckBuffer(1);
        Bounds();
      }
      assert t[0..|t|] == t;
    }

    /** The byte-by-byte part of the zeros when commas are counted. */
    method CommaRun(i0: nat, c: nat, cs0: nat, ghost n: nat, ghost first: nat, ghost d: nat) returns (cs: nat)
      requires d + i0 <= n && cs0 == Place(c, first, d)
      requires Valid() && Room(i0) && (!callback.NoCallback? ==> bf + i0 <= buf + CHUNK_MAX)
      modifies this`bf, mem
      ensures Valid() && Output() == old(Output()) + Padding(n, true, c, first)[d..d + i0] && bf == old(bf) + i0
      ensures cs == Place(c, first, d + i0)
    {
      hide Printer.Valid, Printer.Output, Padding, Place;
      ghost var t := Padding(n, true, c, first);
      var i := i0;
      cs := cs0;
      assert t[d..d] == [];
      while i != 0
        invariant 0 <= i <= i0 && bf == old(bf) + i0 - i && Valid() && Room(i)
        invariant cs == Place(c, first, d + i0 - i)
        invariant Output() == old(Output()) + t[d..d + i0 - i]
        decreases i
      {
        RoomMeansOpen(i);
        ghost var k := d + i0 - i;
        NextPlace(c, first, k);
        PaddingAt(n, c, first, k);
        TakeMore(old(Output()), t, d, k, 1);
        if cs == c {
          cs := 0;
          Put(COMMA);
        } else {
          cs := cs + 1;
          Put(ZERO);
        }
        i := i - 1;
      }
    }

    /** The zeros in front of a number, with commas counted on from cs0 when asked for. */
    method LeadingZeros(pr0: nat, comma: bool, c: nat, cs0: nat)
      requires Valid() && Room(pr0) && cs0 <= c
      modifies this`tlen, this`calls, this`buf, this`bf, this`cbuf, this`count, this`length, this`chunks, mem
      ensures Valid() && Output() == old(Output()) + Padding(pr0, comma, c, cs0)
    {
      hide Printer.Valid, Printer.Output, Padding, Repeat, Place;
      var pr, cs := pr0, cs0;
      ghost var t := Padding(pr0, comma, c, cs0);
      assert t[0..0] == [];
      NextPlace(c, cs0, 0);
      while pr > 0
        invariant 0 <= pr <= pr0 && Valid() && Room(pr) && (comma ==> cs == Place(c, cs0, pr0 - pr))
        invariant Output() == old(Output()) + t[0..pr0 - pr]
        decreases pr, if !callback.NoCallback? && bf == buf + CHUNK_MAX then 1 else 0
      {
        Bounds();
        var i := Clamped(pr);
        ghost var d := pr0 - pr;
        TakeMore(old(Output()), t, 0, d, i);
        pr := pr - i;
        if !comma {
          FillRun(ZERO, i);
          PlainPadding(pr0, c, cs0, d, i);
        } else {
          cs := CommaRun(i, c, cs, pr0, cs0, d);
        }
        Bounds();
        CheckBuffer(1);
        Bounds();
      }
      assert t[0..pr0] == t;
    }
  }

  const ZERO: Byte := Numerals.ZERO_CHAR
  const COMMA: Byte := Numerals.COMMA
  const SPACE: Byte := ' ' as int

  lemma TakeMore(s: Text, t: Text, a: nat, d: nat, n: nat)
    requires a <= d && d + n <= |t|
    ensures (s + t[a..d]) + t[d..d + n] == s + t[a..d + n]
    ensures n == 1 ==> t[d..d + n] == [t[d]]
    ensures n == 4 ==> t[d..d + n] == [t[d], t[d + 1], t[d + 2], t[d + 3]]
  {
  }

  /** The counter between two commas, k characters after it stood at cs0. */
  function Place(c: nat, cs0: nat, k: nat): nat {
    (cs0 + k) % (c + 1)
  }

  /** Zeros with a comma whenever the counter has reached c. */
  function Padding(n: nat, comma: bool, c: nat, cs0: nat): (t: Text)
    ensures |t| == n
  {
    seq(n, k requires 0 <= k < n => if comma && Place(c, cs0, k) == c then COMMA else ZERO)
  }

  lemma NextPlace(c: nat, cs0: nat, k: nat)
    ensures Place(c, cs0, k) <= c
    ensures Place(c, cs0, k + 1) == if Place(c, cs0, k) == c then 0 else Place(c, cs0, k) + 1
    ensures k == 0 && cs0 <= c ==> Place(c, cs0, k) == cs0
  {
    hide Place;
    PlaceIs(c, cs0, k);
    PlaceIs(c, cs0, k + 1);
    NextRemainder(cs0 + k, c + 1);
    if k == 0 && cs0 <= c {
      QuotientIs(cs0, c + 1, 0, cs0);
    }
  }

  lemma PlaceIs(c: nat, cs0: nat, k: nat)
    ensures Place(c, cs0, k) == (cs0 + k) % (c + 1)
  {
  }

  lemma NextRemainder(x: nat, m: nat)
    requires m > 0
    ensures x % m < m && (x + 1) % m == if x % m + 1 == m then 0 else x % m + 1
  {
    var q, r := x / m, x % m;
    DivideWhole(x, m);
    if r + 1 == m {
      assert m * (q + 1) == m * q + m by { Minus(m, q, -1); }
      QuotientIs(x + 1, m, q + 1, 0);
    } else {
      QuotientIs(x + 1, m, q, r + 1);
    }
  }

  lemma DivideWhole(x: nat, m: nat)
    requires m > 0
    ensures x == m * (x / m) + x % m && x % m < m
  {
  }

  lemma QuotientIs(x: nat, m: nat, q: nat, r: nat)
    requires r < m && x == m * q + r
    ensures x % m == r
  {
    var d := x / m - q;
    DivideWhole(x, m);
    assert m * d == r - x % m by { Minus(m, x / m, q); }
    if d > 0 {
      AtLeastOnce(m, d);
    } else if d < 0 {
      AtLeastOnce(m, -d);
      Negate(m, d);
    }
  }

  lemma Minus(m: nat, a: int, b: int)
    ensures m * (a - b) == m * a - m * b
  {
  }

  lemma Negate(m: nat, d: int)
    ensures m * -d == -(m * d)
  {
  }

  lemma AtLeastOnce(m: nat, d: nat)
    requires d > 0
    ensures m * d >= m
  {
  }

  lemma PaddingAt(n: nat, c: nat, cs0: nat, k: nat)
    requires k < n
    ensures Padding(n, true, c, cs0)[k] == if Place(c, cs0, k) == c then COMMA else ZERO
  {
  }

  lemma PlainPadding(n: nat, c: nat, cs0: nat, d: nat, i: nat)
    requires d + i <= n
    ensures Padding(n, false, c, cs0)[d..d + i] == Repeat(ZERO, i)
  {
  }

  /** n copies of a character. */
  function Repeat(ch: Byte, n: nat): (t: Text)
    ensures |t| == n
  {
    seq(n, _ => ch)
  }

  lemma RepeatNone(ch: Byte)
    ensures Repeat(ch, 0) == []
  {
  }

  lemma RepeatMore(ch: Byte, n: nat, m: nat)
    ensures Repeat(ch, n + m) == Repeat(ch, n) + Repeat(ch, m)
    ensures forall t: Text {:trigger t + Repeat(ch, n)} :: (t + Repeat(ch, n)) + Repeat(ch, m) == t + Repeat(ch, n + m)
    ensures Repeat(ch, 1) == [ch] && Repeat(ch, 4) == [ch, ch, ch, ch]
  {
    forall t: Text
      ensures (t + Repeat(ch, n)) + Repeat(ch, m) == t + Repeat(ch, n + m)
    {
    }
  }

  lemma BufferAt(next: nat -> nat, k: nat, size: nat)
    requires HandsOutBuffers(next, size)
    ensures next(k) + CHUNK_MAX <= size
  {
  }

  lemma SliceSame(m: seq<Byte>, m': seq<Byte>, a: nat, b: nat, c: nat)
    requires a <= b <= c <= |m| == |m'| && forall i: nat :: a <= i < b ==> m'[i] == m[i]
    ensures m'[a..c] == m[a..b] + m'[b..c]
  {
  }

  /** What a further piece adds to the delivered part. */
  lemma DeliverMore(sent: Text, piece: Text, limit: nat)
    ensures var n := Min(|piece|, limit - Min(|sent|, limit));
      && Min(|sent + piece|, limit) == Min(|sent|, limit) + n
      && (sent + piece)[..Min(|sent + piece|, limit)] == sent[..Min(|sent|, limit)] + piece[..n]
  {
  }

  lemma JoinedNone()
    ensures Joined([]) == []
  {
  }
}

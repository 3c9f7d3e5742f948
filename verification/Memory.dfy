// Physical memory as the model holds it: the bytes of the bit set in the allocator, all
// others in frames of words.  When writing to a frame of words is writing to memory.
module Memories {
  import opened Bits
  import opened Paging
  import opened Bitmaps
  import opened PageTables
  import opened Storages

  /** Byte k of a little-endian word. */
  function WordByte(w: Word, k: nat): Byte
  {
    if k == 0 then w % 0x100 else WordByte(w / 0x100, k - 1)
  }

  /** The number of some bytes, lowest first, and how many numbers n bytes hold. */
  function FromBytes(b: seq<Byte>): nat {
    if b == [] then 0 else b[0] + 0x100 * FromBytes(b[1..])
  }

  function Numbers(n: nat): nat {
    if n == 0 then 1 else 0x100 * Numbers(n - 1)
  }

  lemma {:induction false} BytesMakeNumber(w: Word, n: nat)
    requires w < Numbers(n)
    ensures FromBytes(seq(n, k requires 0 <= k < n => WordByte(w, k))) == w
  {
    var b := seq(n, k requires 0 <= k < n => WordByte(w, k));
    if n > 0 {
      BytesMakeNumber(w / 0x100, n - 1);
      assert b[1..] == seq(n - 1, k requires 0 <= k < n - 1 => WordByte(w / 0x100, k));
    }
  }

  /** The eight bytes of a word make up the word. */
  lemma BytesMakeWord(w: Word)
    ensures FromBytes(seq(8, k requires 0 <= k < 8 => WordByte(w, k))) == w
  {
    assert Numbers(4) == 0x1_0000_0000;
    assert Numbers(8) == U64_LIMIT;
    BytesMakeNumber(w, 8);
  }

  /** The byte at an offset of a frame. */
  function TableByte(t: Table, offset: nat): Byte
    requires offset < MEM_FRAME_SIZE
  {
    WordByte(t[offset / 8], offset % 8)
  }

  /** The byte at a physical address, with the bit set's bytes from `address` on. */
  function Physical(ram: seq<Table>, address: nat, bytes: seq<Byte>, x: nat): Byte
    requires x < |ram| * MEM_FRAME_SIZE
  {
    if address <= x < address + |bytes| then bytes[x - address] else TableByte(ram[x / MEM_FRAME_SIZE], x % MEM_FRAME_SIZE)
  }

  /** Frame f of the memory holds t now, and the other frames are as before. */
  ghost predicate IsWrite(ram: seq<Table>, ram': seq<Table>, address: nat, bytes: seq<Byte>, f: nat, t: Table) {
    && |ram'| == |ram|
    && forall x: nat {:trigger Physical(ram', address, bytes, x)} :: x < |ram| * MEM_FRAME_SIZE ==>
      Physical(ram', address, bytes, x) ==
        if x / MEM_FRAME_SIZE == f then TableByte(t, x % MEM_FRAME_SIZE) else Physical(ram, address, bytes, x)
  }

  /**
   * Replacing a frame of words is writing to memory exactly when the bytes of the bit
   * set that lie in the frame are the ones written; so off the bit set it always is.
   */
  lemma WriteMeaning(ram: seq<Table>, address: nat, bytes: seq<Byte>, f: nat, t: Table)
    requires f < |ram| && address + |bytes| <= |ram| * MEM_FRAME_SIZE
    ensures IsWrite(ram, ram[f := t], address, bytes, f, t)
      <==> forall k :: 0 <= k < |bytes| && ByteFrame(address, k) == f ==>
        bytes[k] == TableByte(t, (address + k) % MEM_FRAME_SIZE)
  {
    hide TableByte;
    var ram' := ram[f := t];
    if IsWrite(ram, ram', address, bytes, f, t) {
      forall k | 0 <= k < |bytes| && ByteFrame(address, k) == f
        ensures bytes[k] == TableByte(t, (address + k) % MEM_FRAME_SIZE)
      {
        assert Physical(ram', address, bytes, address + k) == bytes[k];
      }
    } else {
      var x: nat :| x < |ram| * MEM_FRAME_SIZE && Physical(ram', address, bytes, x) !=
        if x / MEM_FRAME_SIZE == f then TableByte(t, x % MEM_FRAME_SIZE) else Physical(ram, address, bytes, x);
      assert ByteFrame(address, x - address) == f;
    }
  }

  lemma WriteApart(ram: seq<Table>, address: nat, bytes: seq<Byte>, f: nat, t: Table)
    requires f < |ram| && |bytes| > 0 && address + |bytes| <= |ram| * MEM_FRAME_SIZE
    requires !StorageFrames(address, |bytes|).Has(f)
    ensures IsWrite(ram, ram[f := t], address, bytes, f, t)
  {
    StorageHas(address, |bytes|, f);
    WriteMeaning(ram, address, bytes, f, t);
  }

  /** What filling frame f of memory with zeros makes of the bit set's bytes. */
  function Overwritten(bytes: seq<Byte>, address: nat, f: nat): (b: seq<Byte>)
    ensures |b| == |bytes|
  {
    seq(|bytes|, k requires 0 <= k < |bytes| => if ByteFrame(address, k) == f then 0 else bytes[k])
  }

  lemma ZeroByte(k: nat)
    ensures WordByte(0, k) == 0
  {
  }

  /** That is what memory then holds: it is a write of an empty table, the bit set included. */
  lemma OverwrittenIsWrite(ram: seq<Table>, address: nat, bytes: seq<Byte>, f: nat, x: nat)
    requires f < |ram| && x < |ram| * MEM_FRAME_SIZE
    ensures Physical(ram[f := ZeroTable()], address, Overwritten(bytes, address, f), x) ==
      if x / MEM_FRAME_SIZE == f then 0 else Physical(ram, address, bytes, x)
  {
    ZeroByte(x % MEM_FRAME_SIZE % 8);
  }

  /** And the marks that are left are those that Erased says. */
  lemma OverwrittenBits(bytes: seq<Byte>, address: nat, f: nat)
    ensures BitsOf(Overwritten(bytes, address, f), |bytes|) == Erased(BitsOf(bytes, |bytes|), address, f)
  {
    hide Digit;
    forall i | 0 <= i < 8 * |bytes|
      ensures BitAt(Overwritten(bytes, address, f), i) == (BitAt(bytes, i) && ByteFrame(address, i / 8) != f)
    {
      ZeroDigit(i % 8);
    }
  }
}

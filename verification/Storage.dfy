// The frames that requests take, and the frames that hold the bit set itself
// (rizzos/src/paging/page_frame_allocator.c:25-64).
module Storages {
  import opened Bits
  import opened Paging
  import opened PageFrames

  // ----- the lowest clear frames

  /** The number of clear frames below f. */
  function ClearBelow(bits: seq<bool>, f: nat): nat
    requires f <= |bits|
  {
    CountClear(bits[..f])
  }

  lemma ClearBelowStep(bits: seq<bool>, f: nat)
    requires f < |bits|
    ensures ClearBelow(bits, f + 1) == ClearBelow(bits, f) + (if bits[f] then 0 else 1)
  {
    assert bits[..f + 1][..f] == bits[..f];
  }

  lemma {:induction false} ClearBelowGrows(bits: seq<bool>, f: nat, g: nat)
    requires f <= g <= |bits|
    ensures ClearBelow(bits, f) <= ClearBelow(bits, g)
    ensures (forall j :: f <= j < g ==> bits[j]) ==> ClearBelow(bits, f) == ClearBelow(bits, g)
    decreases g
  {
    hide ClearBelow;
    if f < g {
      ClearBelowGrows(bits, f, g - 1);
      ClearBelowStep(bits, g - 1);
    }
  }

  lemma {:induction false} ClearRun(bits: seq<bool>, f: nat, n: nat)
    requires f + n <= |bits| && forall j :: f <= j < f + n ==> !bits[j]
    ensures ClearBelow(bits, f + n) >= n
    decreases n
  {
    hide ClearBelow;
    if n > 0 {
      ClearRun(bits, f, n - 1);
      ClearBelowStep(bits, f + n - 1);
    }
  }

  lemma AllBelow(bits: seq<bool>)
    ensures ClearBelow(bits, |bits|) == CountClear(bits)
  {
    assert bits[..|bits|] == bits;
  }

  /** The k lowest clear frames, or all when there are fewer, are taken and no other. */
  ghost predicate Lowest(bits: seq<bool>, bits': seq<bool>, k: nat) {
    && |bits'| == |bits|
    && forall f {:trigger bits'[f]} :: 0 <= f < |bits| ==> (bits'[f] <==> bits[f] || ClearBelow(bits, f) < k)
  }

  lemma LowestNone(bits: seq<bool>)
    ensures Lowest(bits, bits, 0)
  {
  }

  lemma LowestAt(bits: seq<bool>, bits': seq<bool>, k: nat, f: nat)
    requires Lowest(bits, bits', k) && f < |bits|
    ensures bits'[f] <==> bits[f] || ClearBelow(bits, f) < k
  {
  }

  lemma NoneBelow(bits: seq<bool>)
    ensures ClearBelow(bits, 0) == 0
  {
  }

  lemma LowestFirst(bits: seq<bool>, c: nat)
    requires c < |bits| && !bits[c] && forall j :: 0 <= j < c ==> bits[j]
    ensures ClearBelow(bits, c) == 0 && Lowest(bits, bits[c := true], 1)
  {
    hide ClearBelow;
    NoneBelow(bits);
    ClearBelowGrows(bits, 0, c);
    ClearBelowStep(bits, c);
    forall f | c < f < |bits|
      ensures ClearBelow(bits, f) >= 1
    {
      ClearBelowGrows(bits, c + 1, f);
    }
  }

  /** What is left below a frame after the lowest clear ones are taken. */
  lemma {:induction false} LowestLeaves(bits: seq<bool>, bits': seq<bool>, k: nat, f: nat)
    requires Lowest(bits, bits', k) && f <= |bits|
    ensures ClearBelow(bits', f) == if ClearBelow(bits, f) >= k then ClearBelow(bits, f) - k else 0
  {
    hide ClearBelow;
    if f == 0 {
      NoneBelow(bits);
      NoneBelow(bits');
    } else {
      LowestLeaves(bits, bits', k, f - 1);
      ClearBelowStep(bits, f - 1);
      ClearBelowStep(bits', f - 1);
    }
  }

  lemma LowestTwice(a: seq<bool>, b: seq<bool>, c: seq<bool>, j: nat, k: nat)
    requires Lowest(a, b, j) && Lowest(b, c, k)
    ensures Lowest(a, c, j + k)
  {
    hide ClearBelow;
    forall f | 0 <= f < |a|
      ensures c[f] <==> a[f] || ClearBelow(a, f) < j + k
    {
      LowestLeaves(a, b, j, f);
    }
  }

  // ----- the bit set's own frames

  datatype FrameRange = FrameRange(first: nat, count: nat) {
    predicate Has(f: nat) {
      first <= f < first + count
    }
  }

  /** The frames that hold so many bytes from an address on. */
  function StorageFrames(address: nat, size: nat): FrameRange
    requires size > 0
  {
    FrameRange(address / MEM_FRAME_SIZE, (address + size - 1) / MEM_FRAME_SIZE - address / MEM_FRAME_SIZE + 1)
  }

  /** The frame of one byte of the storage. */
  function ByteFrame(address: nat, k: nat): nat {
    (address + k) / MEM_FRAME_SIZE
  }

  lemma StorageHas(address: nat, size: nat, f: nat)
    requires size > 0
    ensures StorageFrames(address, size).Has(f) <==> exists k :: 0 <= k < size && ByteFrame(address, k) == f
  {
    if StorageFrames(address, size).Has(f) {
      var k := if f * MEM_FRAME_SIZE <= address then 0 else f * MEM_FRAME_SIZE - address;
      assert 0 <= k < size && ByteFrame(address, k) == f;
    }
  }

  /** The frames past the last one of a memory of `total` bytes. */
  function PastMemory(total: nat): FrameRange {
    FrameRange(total / MEM_FRAME_SIZE + 1, FRAME_LIMIT)
  }

  ghost predicate AllTaken(bits: seq<bool>, store: FrameRange) {
    forall f: nat {:trigger bits[f]} :: store.Has(f) && f < |bits| ==> bits[f]
  }

  /** The next n requests pass a range of frames by: it is taken, or n clear frames lie below it. */
  ghost predicate Spared(bits: seq<bool>, store: FrameRange, n: nat) {
    AllTaken(bits, store) || (store.first <= |bits| && ClearBelow(bits, store.first) >= n)
  }

  lemma {:induction false} LowestClear(bits: seq<bool>, store: FrameRange, i: nat) returns (c: nat)
    requires store.first <= i && !AllTaken(bits, store) && store.first <= |bits|
    requires forall j :: store.first <= j < i && j < |bits| ==> bits[j]
    ensures store.Has(c) && c < |bits| && !bits[c] && ClearBelow(bits, c) == ClearBelow(bits, store.first)
    decreases |bits| - i
  {
    hide ClearBelow;
    if i < |bits| && !bits[i] {
      c := i;
      ClearBelowGrows(bits, store.first, i);
    } else {
      c := LowestClear(bits, store, i + 1);
    }
  }

  /**
   * n requests leave a range of frames alone exactly when it is taken already or at least n
   * clear frames lie below its first frame.
   */
  lemma SparedMeaning(bits: seq<bool>, bits': seq<bool>, store: FrameRange, n: nat)
    requires Lowest(bits, bits', n)
    ensures Spared(bits, store, n) <==> forall f: nat :: store.Has(f) && f < |bits| ==> bits'[f] == bits[f]
  {
    hide ClearBelow;
    if Spared(bits, store, n) {
      forall f: nat | store.Has(f) && f < |bits|
        ensures bits'[f] == bits[f]
      {
        if !bits[f] {
          ClearBelowGrows(bits, store.first, f);
        }
      }
    } else if store.first <= |bits| {
      var c := LowestClear(bits, store, store.first);
      assert bits'[c] != bits[c];
    }
  }

  lemma SparedLater(bits: seq<bool>, bits': seq<bool>, store: FrameRange, a: nat, b: nat)
    requires Lowest(bits, bits', a) && Spared(bits, store, a + b)
    ensures Spared(bits, store, a) && Spared(bits', store, b)
  {
    hide ClearBelow;
    if !AllTaken(bits, store) {
      LowestLeaves(bits, bits', a, store.first);
    }
  }

  /** A frame that the next request returns is not in the storage. */
  lemma SparedFirst(bits: seq<bool>, store: FrameRange, n: nat, c: nat)
    requires Spared(bits, store, n) && n > 0
    requires c < |bits| && !bits[c] && forall j :: 0 <= j < c ==> bits[j]
    ensures !store.Has(c)
  {
    LowestFirst(bits, c);
    SparedLater(bits, bits[c := true], store, 1, n - 1);
    SparedMeaning(bits, bits[c := true], store, 1);
  }

  /** Requests pass a range by exactly when the first one does and then the others do. */
  lemma SparedAfterFirst(bits: seq<bool>, store: FrameRange, c: nat, n: nat)
    requires c < |bits| && !bits[c] && forall j :: 0 <= j < c ==> bits[j]
    ensures Spared(bits, store, 1 + n) <==> !store.Has(c) && Spared(bits[c := true], store, n)
  {
    hide ClearBelow;
    LowestFirst(bits, c);
    assert forall f: nat :: f < |bits| && f != c ==> bits[c := true][f] == bits[f];
    if Spared(bits, store, 1 + n) {
      SparedFirst(bits, store, 1 + n, c);
      SparedLater(bits, bits[c := true], store, 1, n);
    } else if !store.Has(c) && Spared(bits[c := true], store, n) {
      if c < store.first <= |bits| {
        ClearBelowGrows(bits, c + 1, store.first);
        ClearBelowStep(bits, c);
        LowestLeaves(bits, bits[c := true], 1, store.first);
      }
    }
  }

  // ----- what happens otherwise

  /** The bits after frame f of memory is filled with zeros. */
  function Erased(bits: seq<bool>, address: nat, f: nat): (bits': seq<bool>)
    ensures |bits'| == |bits|
  {
    seq(|bits|, i requires 0 <= i < |bits| => bits[i] && ByteFrame(address, i / 8) != f)
  }

  /**
   * When a request returns frame f and f is filled with zeros, the next request
   * returns f again exactly when the byte with the mark of f lies in f itself.
   */
  lemma HandedOutTwice(s: Frames, address: nat)
    requires HintSound(s) && !Full(s.bits) && s.bits[0]
    ensures var (s1, a) := RequestFrame(s);
      var f := a / MEM_FRAME_SIZE;
      RequestFrame(s1.(bits := Erased(s1.bits, address, f))).1 == a <==> ByteFrame(address, f / 8) == f
  {
    hide Wrap;
    var f := FirstClear(s.bits, s.hint);
    assert f < |s.bits|;
    assert f * MEM_FRAME_SIZE / MEM_FRAME_SIZE == f;
    var s1 := RequestFrame(s).0;
    var bits := Erased(s1.bits, address, f);
    assert s1.hint == f && s1.bits[f];
    assert f > 0;
    if bits[f] {
      assert FirstClear(bits, f) > f;
    }
  }
}

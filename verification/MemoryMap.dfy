// The firmware's memory map (rizzos/src/uefi_memory.h) and its size
// (rizzos/src/memory.c).
module MemoryMaps {
  import opened Bits
  import opened Paging

  const CONVENTIONAL_MEMORY: nat := 7

  /** The fields of a descriptor that the kernel reads. */
  datatype Descriptor = Descriptor(kind: nat, physAddr: nat, numPages: nat)

  predicate Usable(d: Descriptor) {
    d.kind == CONVENTIONAL_MEMORY
  }

  predicate InDescriptor(d: Descriptor, frame: nat) {
    d.physAddr / MEM_FRAME_SIZE <= frame < d.physAddr / MEM_FRAME_SIZE + d.numPages
  }

  /** Frame lies in a usable descriptor among the first n. */
  predicate InUsable(mmap: seq<Descriptor>, n: nat, frame: nat)
    requires n <= |mmap|
  {
    exists k :: 0 <= k < n && Usable(mmap[k]) && InDescriptor(mmap[k], frame)
  }

  /** Size in bytes of the first n descriptors, whatever their kind, modulo 2^64. */
  function TotalSize(mmap: seq<Descriptor>, n: nat): nat
    requires n <= |mmap|
  {
    if n == 0 then 0 else Wrap(TotalSize(mmap, n - 1) + mmap[n - 1].numPages * MEM_FRAME_SIZE)
  }

  lemma {:induction false} TotalSizeAligned(mmap: seq<Descriptor>, n: nat)
    requires n <= |mmap|
    ensures TotalSize(mmap, n) % MEM_FRAME_SIZE == 0
  {
    if n > 0 {
      TotalSizeAligned(mmap, n - 1);
    }
  }

  // ----- what the size is

  ghost function Range(lo: nat, n: nat): (s: set<nat>)
    ensures |s| == n && forall f :: f in s <==> lo <= f < lo + n
  {
    if n == 0 then {} else Range(lo, n - 1) + {lo + n - 1}
  }

  /** The frames of one descriptor, and of the first n, of whatever kinds. */
  ghost function FramesIn(d: Descriptor): set<nat> {
    Range(d.physAddr / MEM_FRAME_SIZE, d.numPages)
  }

  ghost function FramesOf(mmap: seq<Descriptor>, n: nat): set<nat>
    requires n <= |mmap|
  {
    if n == 0 then {} else FramesOf(mmap, n - 1) + FramesIn(mmap[n - 1])
  }

  /** No frame is in two descriptors. */
  ghost predicate Disjoint(mmap: seq<Descriptor>) {
    forall j, k :: 0 <= j < k < |mmap| ==> FramesIn(mmap[j]) !! FramesIn(mmap[k])
  }

  lemma {:induction false} InFramesOf(mmap: seq<Descriptor>, n: nat, f: nat)
    requires n <= |mmap|
    ensures f in FramesOf(mmap, n) <==> exists k :: 0 <= k < n && InDescriptor(mmap[k], f)
  {
    if n > 0 {
      InFramesOf(mmap, n - 1, f);
      InFramesIn(mmap[n - 1], f);
      hide FramesIn, InDescriptor;
      if exists k :: 0 <= k < n && InDescriptor(mmap[k], f) {
        var k :| 0 <= k < n && InDescriptor(mmap[k], f);
        assert k == n - 1 || exists j :: 0 <= j < n - 1 && InDescriptor(mmap[j], f);
      }
    }
  }

  lemma InFramesIn(d: Descriptor, f: nat)
    ensures f in FramesIn(d) <==> InDescriptor(d, f)
  {
  }

  /** When no frame is counted twice, the size of memory is that of all frames of the map. */
  lemma {:induction false} TotalSizeCounts(mmap: seq<Descriptor>, n: nat)
    requires n <= |mmap| && Disjoint(mmap)
    ensures TotalSize(mmap, n) == Wrap(MEM_FRAME_SIZE * |FramesOf(mmap, n)|)
  {
    hide Wrap, Range;
    if n == 0 {
      WrapFits(0);
    } else {
      var d := mmap[n - 1];
      TotalSizeCounts(mmap, n - 1);
      assert FramesOf(mmap, n - 1) !! FramesIn(d) by {
        forall f | f in FramesOf(mmap, n - 1)
          ensures f !in FramesIn(d)
        {
          InFramesOf(mmap, n - 1, f);
          var k :| 0 <= k < n - 1 && InDescriptor(mmap[k], f);
          assert f in FramesIn(mmap[k]);
        }
      }
      WrapLate(MEM_FRAME_SIZE * |FramesOf(mmap, n - 1)|, d.numPages * MEM_FRAME_SIZE);
    }
  }

  /** The map has the frames below n and no other. */
  ghost predicate CoversBelow(mmap: seq<Descriptor>, n: nat) {
    FramesOf(mmap, |mmap|) == Range(0, n)
  }

  /**
   * For a map without overlaps that covers the frames below n, of whatever kinds its
   * descriptors are, the size is that of n frames.
   */
  lemma TotalSizeOfMemory(mmap: seq<Descriptor>, n: nat)
    requires Disjoint(mmap) && CoversBelow(mmap, n) && n < FRAME_LIMIT
    ensures TotalSize(mmap, |mmap|) == n * MEM_FRAME_SIZE
  {
    hide TotalSize, FramesOf, Disjoint, Range, Wrap;
    TotalSizeCounts(mmap, |mmap|);
    WrapFits(n * MEM_FRAME_SIZE);
  }

  /**
   * The size reaches past every frame of a map without overlaps exactly when the map has
   * no hole; with a hole its highest frames lie beyond the size.
   */
  lemma HolesHideFrames(mmap: seq<Descriptor>)
    requires Disjoint(mmap) && |FramesOf(mmap, |mmap|)| < FRAME_LIMIT
    ensures (forall f <- FramesOf(mmap, |mmap|) :: f < TotalSize(mmap, |mmap|) / MEM_FRAME_SIZE)
      <==> exists n: nat :: CoversBelow(mmap, n)
  {
    var s := FramesOf(mmap, |mmap|);
    var n := |s|;
    TotalSizeCounts(mmap, |mmap|);
    WrapFits(MEM_FRAME_SIZE * n);
    assert TotalSize(mmap, |mmap|) / MEM_FRAME_SIZE == n;
    if forall f <- s :: f < n {
      SameSize(s, Range(0, n));
      assert CoversBelow(mmap, n);
    }
    if m: nat :| CoversBelow(mmap, m) {
      assert m == n;
    }
  }

  /** Two usable ranges of one mebibyte with a hole between them: the second lies past the size. */
  lemma HighRangeHidden()
    ensures var mmap := [Descriptor(7, 0, 0x100), Descriptor(7, 0x20_0000, 0x100)];
      (TotalSize(mmap, 2) == 0x20_0000 && InUsable(mmap, 2, 0x200) && 0x200 >= TotalSize(mmap, 2) / MEM_FRAME_SIZE)
  {
    var mmap := [Descriptor(7, 0, 0x100), Descriptor(7, 0x20_0000, 0x100)];
    assert TotalSize(mmap, 1) == 0x10_0000;
    assert Usable(mmap[1]) && InDescriptor(mmap[1], 0x200);
  }

  lemma {:induction false} SameSize(s: set<nat>, t: set<nat>)
    requires s <= t && |s| == |t|
    ensures s == t
  {
    if s != {} {
      var x :| x in s;
      SameSize(s - {x}, t - {x});
    }
  }

  /** The static variable of MEM_GetTotalSize. */
  class SizeCache {
    var memorySize: nat

    constructor ()
      ensures memorySize == 0
    {
      memorySize := 0;
    }

    /** The map is summed once; later calls return the first answer for any map. */
    method GetTotalSize(mmap: seq<Descriptor>) returns (size: nat)
      modifies this
      ensures size == memorySize
      ensures size == if old(memorySize) > 0 then old(memorySize) else TotalSize(mmap, |mmap|)
    {
      if memorySize > 0 {
        return memorySize;
      }
      for i := 0 to |mmap|
        invariant memorySize == TotalSize(mmap, i)
      {
        memorySize := Wrap(memorySize + mmap[i].numPages * MEM_FRAME_SIZE);
      }
      return memorySize;
    }
  }
}

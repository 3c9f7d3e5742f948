// The state of the page frame allocator after PFA_InitEfiMemoryMap
// (rizzos/src/paging/page_frame_allocator.c:21-54).
module BootFrames {
  import opened Bits
  import opened Paging
  import opened MemoryMaps
  import opened PageFrames

  function LockRange(s: Frames, f: nat, n: nat): (s': Frames)
    ensures |s'.bits| == |s.bits| && s'.hint == s.hint
  {
    if n == 0 then s else LockFrame(LockRange(s, f, n - 1), f + n - 1)
  }

  function FreeRange(s: Frames, f: nat, n: nat): (s': Frames)
    ensures |s'.bits| == |s.bits| && s'.hint <= s.hint
  {
    if n == 0 then s else FreeFrame(FreeRange(s, f, n - 1), f + n - 1)
  }

  function ReserveRange(s: Frames, f: nat, n: nat): (s': Frames)
    ensures |s'.bits| == |s.bits| && s'.hint == s.hint
  {
    if n == 0 then s else ReserveFrame(ReserveRange(s, f, n - 1), f + n - 1)
  }

  function UnreserveRange(s: Frames, f: nat, n: nat): (s': Frames)
    ensures |s'.bits| == |s.bits| && s'.hint <= s.hint
  {
    if n == 0 then s else UnreserveFrame(UnreserveRange(s, f, n - 1), f + n - 1)
  }

  /** The descriptors before the n-th that are usable have been given back. */
  function UnreserveUsable(s: Frames, mmap: seq<Descriptor>, n: nat): (s': Frames)
    requires n <= |mmap|
    ensures |s'.bits| == |s.bits| && s'.hint <= s.hint
  {
    if n == 0 then s
    else
      var t := UnreserveUsable(s, mmap, n - 1);
      var d := mmap[n - 1];
      if Usable(d) then UnreserveRange(t, d.physAddr / MEM_FRAME_SIZE, d.numPages) else t
  }

  /** The first of the largest usable descriptors among the first n, as (address, bytes). */
  function LargestUsable(mmap: seq<Descriptor>, n: nat): (nat, nat)
    requires n <= |mmap|
  {
    if n == 0 then (0, 0)
    else
      var best := LargestUsable(mmap, n - 1);
      var d := mmap[n - 1];
      if Usable(d) && Wrap(d.numPages * MEM_FRAME_SIZE) > best.1
      then (d.physAddr, Wrap(d.numPages * MEM_FRAME_SIZE)) else best
  }

  const LOW_FRAMES: nat := 0x100

  /** The bytes of the bit set for a memory of `total` bytes. */
  function BitmapSize(total: nat): nat {
    total / (MEM_FRAME_SIZE * 8) + 1
  }

  predicate Within(j: nat, f: nat, n: nat) {
    f <= j < f + n
  }

  /**
   * What the boot code asks of its arguments and does not check: no range that it names
   * holds the first frame behind the bit set.  Frames further out may be named, and a
   * usable range may lie there.  `field` is the address of the variable g_pageBitmap.buffer.
   */
  predicate BootInRange(mmap: seq<Descriptor>, total: nat, field: nat) {
    var size := BitmapSize(total);
    && LOW_FRAMES <= 8 * size
    && !InUsable(mmap, |mmap|, 8 * size)
    && !Within(8 * size, field / MEM_FRAME_SIZE, size / MEM_FRAME_SIZE + 1)
  }

  /** The state before the last call of boot. */
  function BeforeLock(s: Frames, mmap: seq<Descriptor>, total: nat): (b: Frames)
    ensures |b.bits| == 8 * BitmapSize(total)
  {
    var s0 := s.(bits := seq(8 * BitmapSize(total), _ => false), free := total);
    var s1 := ReserveRange(s0, 0, total / MEM_FRAME_SIZE + 1);
    var s2 := UnreserveUsable(s1, mmap, |mmap|);
    ReserveRange(s2, 0, LOW_FRAMES)
  }

  function BootState(s: Frames, mmap: seq<Descriptor>, total: nat, field: nat): (b: Frames)
    requires BootInRange(mmap, total, field)
    ensures |b.bits| == 8 * BitmapSize(total)
  {
    LockRange(BeforeLock(s, mmap, total), field / MEM_FRAME_SIZE, BitmapSize(total) / MEM_FRAME_SIZE + 1)
  }

  // ----- what the ranges do to the bits

  lemma {:induction false} RangeBits(s: Frames, f: nat, n: nat)
    ensures forall j {:trigger ReserveRange(s, f, n).bits[j]} :: 0 <= j < |s.bits| ==>
      (ReserveRange(s, f, n).bits[j] <==> Within(j, f, n) || s.bits[j])
    ensures forall j {:trigger LockRange(s, f, n).bits[j]} :: 0 <= j < |s.bits| ==>
      (LockRange(s, f, n).bits[j] <==> Within(j, f, n) || s.bits[j])
    ensures forall j {:trigger UnreserveRange(s, f, n).bits[j]} :: 0 <= j < |s.bits| ==>
      (UnreserveRange(s, f, n).bits[j] <==> !Within(j, f, n) && s.bits[j])
    decreases n
  {
    hide Wrap;
    if n > 0 {
      RangeBits(s, f, n - 1);
    }
  }

  lemma {:induction false} UsableBits(s: Frames, mmap: seq<Descriptor>, n: nat)
    requires n <= |mmap|
    ensures forall j {:trigger UnreserveUsable(s, mmap, n).bits[j]} :: 0 <= j < |s.bits| ==>
      (UnreserveUsable(s, mmap, n).bits[j] <==> !InUsable(mmap, n, j) && s.bits[j])
    decreases n
  {
    if n > 0 {
      UsableBits(s, mmap, n - 1);
      var t := UnreserveUsable(s, mmap, n - 1);
      var d := mmap[n - 1];
      if Usable(d) {
        RangeBits(t, d.physAddr / MEM_FRAME_SIZE, d.numPages);
      }
      forall j | 0 <= j < |s.bits|
        ensures UnreserveUsable(s, mmap, n).bits[j] <==> !InUsable(mmap, n, j) && s.bits[j]
      {
        assert InUsable(mmap, n, j) <==> InUsable(mmap, n - 1, j) || (Usable(d) && InDescriptor(d, j));
      }
    }
  }

  /**
   * Exactly which frames are free after boot.  Frames past the last one of memory
   * that still have a bit in the last byte of the bit set are free too.
   */
  lemma BootBits(s: Frames, mmap: seq<Descriptor>, total: nat, field: nat, f: nat)
    requires BootInRange(mmap, total, field) && f < 8 * BitmapSize(total)
    ensures !BootState(s, mmap, total, field).bits[f] <==>
      && f >= LOW_FRAMES
      && !Within(f, field / MEM_FRAME_SIZE, BitmapSize(total) / MEM_FRAME_SIZE + 1)
      && (f > total / MEM_FRAME_SIZE || InUsable(mmap, |mmap|, f))
  {
    hide ReserveRange, LockRange, UnreserveUsable, InUsable;
    var size := BitmapSize(total);
    var s0 := s.(bits := seq(8 * size, _ => false), free := total);
    var s1 := ReserveRange(s0, 0, total / MEM_FRAME_SIZE + 1);
    var s2 := UnreserveUsable(s1, mmap, |mmap|);
    var s3 := ReserveRange(s2, 0, LOW_FRAMES);
    RangeBits(s0, 0, total / MEM_FRAME_SIZE + 1);
    UsableBits(s1, mmap, |mmap|);
    RangeBits(s2, 0, LOW_FRAMES);
    RangeBits(s3, field / MEM_FRAME_SIZE, size / MEM_FRAME_SIZE + 1);
  }

  /** A search from the start of the bit set is sound. */
  lemma BootHint(s: Frames, mmap: seq<Descriptor>, total: nat, field: nat)
    requires BootInRange(mmap, total, field) && s.hint == 0
    ensures HintSound(BootState(s, mmap, total, field))
  {
    hide ReserveRange, LockRange, UnreserveUsable;
  }

  // ----- consequences: what boot promises and what it does not

  /**
   * Every frame that can be handed out after boot lies in a usable descriptor exactly
   * when the bit set has no spare bits, that is when the number of the last frame
   * of memory is 7 modulo 8.
   */
  lemma SpareBitsAreHandedOut(s: Frames, mmap: seq<Descriptor>, total: nat, field: nat)
    requires BootInRange(mmap, total, field)
    requires forall f :: f > total / MEM_FRAME_SIZE ==> !InUsable(mmap, |mmap|, f)
    requires LOW_FRAMES <= total / MEM_FRAME_SIZE + 1
    requires field / MEM_FRAME_SIZE + BitmapSize(total) / MEM_FRAME_SIZE <= total / MEM_FRAME_SIZE
    ensures (forall f :: 0 <= f < 8 * BitmapSize(total) && !BootState(s, mmap, total, field).bits[f]
              ==> InUsable(mmap, |mmap|, f))
      <==> total / MEM_FRAME_SIZE % 8 == 7
  {
    hide BootState, InUsable;
    var last := total / MEM_FRAME_SIZE;
    LastFrame(total);
    if last % 8 == 7 {
      forall f | 0 <= f < 8 * BitmapSize(total) && !BootState(s, mmap, total, field).bits[f]
        ensures InUsable(mmap, |mmap|, f)
      {
        BootBits(s, mmap, total, field, f);
      }
    } else {
      BootBits(s, mmap, total, field, last + 1);
    }
  }

  lemma LastFrame(total: nat)
    ensures 8 * BitmapSize(total) == total / MEM_FRAME_SIZE + 8 - total / MEM_FRAME_SIZE % 8
  {
    assert total / (MEM_FRAME_SIZE * 8) == total / MEM_FRAME_SIZE / 8;
  }

  /** The bitmap's storage is put at the start of the first of the largest usable descriptors. */
  lemma {:induction false} LargestIsFirstMaximum(mmap: seq<Descriptor>, n: nat)
    requires n <= |mmap|
    ensures forall k :: 0 <= k < n && Usable(mmap[k]) ==>
      Wrap(mmap[k].numPages * MEM_FRAME_SIZE) <= LargestUsable(mmap, n).1
    ensures LargestUsable(mmap, n).1 > 0 ==> exists k :: (
      && 0 <= k < n && Usable(mmap[k])
      && LargestUsable(mmap, n) == (mmap[k].physAddr, Wrap(mmap[k].numPages * MEM_FRAME_SIZE))
      && forall j :: 0 <= j < k && Usable(mmap[j]) ==>
        Wrap(mmap[j].numPages * MEM_FRAME_SIZE) < LargestUsable(mmap, n).1)
    ensures LargestUsable(mmap, n).1 == 0 ==> LargestUsable(mmap, n).0 == 0
  {
    hide Wrap;
    if n > 0 {
      LargestIsFirstMaximum(mmap, n - 1);
    }
  }

  /**
   * The frame where the bitmap's own storage starts, if it has a bit, is taken after
   * boot exactly when it is one of the low frames or happens to be locked with the
   * variable's address: otherwise a later request may return the storage itself.
   */
  lemma BitmapStorageNotLocked(s: Frames, mmap: seq<Descriptor>, total: nat, field: nat)
    requires BootInRange(mmap, total, field) && LargestUsable(mmap, |mmap|).1 > 0
    ensures var f := LargestUsable(mmap, |mmap|).0 / MEM_FRAME_SIZE;
      f < 8 * BitmapSize(total) ==>
        (BootState(s, mmap, total, field).bits[f] <==>
          f < LOW_FRAMES || Within(f, field / MEM_FRAME_SIZE, BitmapSize(total) / MEM_FRAME_SIZE + 1))
  {
    hide BootState, LargestUsable, Wrap;
    LargestIsFirstMaximum(mmap, |mmap|);
    var f := LargestUsable(mmap, |mmap|).0 / MEM_FRAME_SIZE;
    var k :| 0 <= k < |mmap| && Usable(mmap[k])
      && LargestUsable(mmap, |mmap|) == (mmap[k].physAddr, Wrap(mmap[k].numPages * MEM_FRAME_SIZE));
    WrapFits(0);
    assert mmap[k].numPages > 0;
    assert InDescriptor(mmap[k], f);
    if f < 8 * BitmapSize(total) {
      BootBits(s, mmap, total, field, f);
    }
  }

  // ----- the counters after boot

  lemma {:induction false} RangeBalanced(s: Frames, f: nat, n: nat, total: nat)
    requires !Within(|s.bits|, f, n) && s.hint <= |s.bits| && Balanced(s, total)
    ensures Balanced(ReserveRange(s, f, n), total)
    ensures Balanced(LockRange(s, f, n), total)
    ensures Balanced(UnreserveRange(s, f, n), total)
    decreases n
  {
    hide Balanced, LockFrame, ReserveFrame, UnreserveFrame;
    if n > 0 {
      RangeBalanced(s, f, n - 1, total);
      BalancedStep(ReserveRange(s, f, n - 1), Reserve(f + n - 1), total);
      BalancedStep(LockRange(s, f, n - 1), Lock(f + n - 1), total);
      BalancedStep(UnreserveRange(s, f, n - 1), Unreserve(f + n - 1), total);
    }
  }

  lemma {:induction false} UsableBalanced(s: Frames, mmap: seq<Descriptor>, n: nat, total: nat)
    requires n <= |mmap| && !InUsable(mmap, n, |s.bits|) && s.hint <= |s.bits| && Balanced(s, total)
    ensures Balanced(UnreserveUsable(s, mmap, n), total)
    decreases n
  {
    hide Balanced, UnreserveRange;
    if n > 0 {
      UsableBalanced(s, mmap, n - 1, total);
      if Usable(mmap[n - 1]) {
        RangeBalanced(UnreserveUsable(s, mmap, n - 1), mmap[n - 1].physAddr / MEM_FRAME_SIZE, mmap[n - 1].numPages, total);
      }
    }
  }

  lemma {:induction false} CountNone(n: nat)
    ensures CountSet(seq(n, _ => false)) == 0
  {
    if n > 0 {
      assert seq(n, _ => false)[..n - 1] == seq(n - 1, _ => false);
      CountNone(n - 1);
    }
  }

  lemma BootBalanced(s: Frames, mmap: seq<Descriptor>, total: nat, field: nat)
    requires BootInRange(mmap, total, field) && s.hint == 0 && s.used == 0 && s.reserved == 0
    ensures Balanced(BootState(s, mmap, total, field), total)
  {
    var size := BitmapSize(total);
    var s0 := s.(bits := seq(8 * size, _ => false), free := total);
    CountNone(8 * size);
    assert Balanced(s0, total);
    hide Balanced, ReserveRange, LockRange, UnreserveUsable;
    RangeBalanced(s0, 0, total / MEM_FRAME_SIZE + 1, total);
    var s1 := ReserveRange(s0, 0, total / MEM_FRAME_SIZE + 1);
    UsableBalanced(s1, mmap, |mmap|, total);
    var s2 := UnreserveUsable(s1, mmap, |mmap|);
    RangeBalanced(s2, 0, LOW_FRAMES, total);
    RangeBalanced(ReserveRange(s2, 0, LOW_FRAMES), field / MEM_FRAME_SIZE, size / MEM_FRAME_SIZE + 1, total);
  }

  // ----- the counters after boot without wrap-around

  ghost function NewlyTaken(bits: seq<bool>, f: nat, n: nat): set<nat> {
    set j: nat | j < |bits| && Within(j, f, n) && !bits[j]
  }

  lemma {:induction false} LockRangeExact(s: Frames, locked: set<nat>, f: nat, n: nat)
    requires !Within(|s.bits|, f, n) && s.hint <= |s.bits| && Exact(s, locked) && MEM_FRAME_SIZE * |s.bits| < U64_LIMIT
    ensures Exact(LockRange(s, f, n), locked + NewlyTaken(s.bits, f, n))
    decreases n
  {
    hide Exact, LockFrame;
    if n == 0 {
      assert locked + NewlyTaken(s.bits, f, 0) == locked;
    } else {
      LockRangeExact(s, locked, f, n - 1);
      RangeBits(s, f, n - 1);
      var t, before, op := LockRange(s, f, n - 1), locked + NewlyTaken(s.bits, f, n - 1), Lock(f + n - 1);
      ExactStep(t, before, op);
      assert Locked(t, before, op) == locked + NewlyTaken(s.bits, f, n);
    }
  }

  lemma {:induction false} ReserveRangeExact(s: Frames, f: nat, n: nat)
    requires !Within(|s.bits|, f, n) && s.hint <= |s.bits| && Exact(s, {}) && MEM_FRAME_SIZE * |s.bits| < U64_LIMIT
    ensures Exact(ReserveRange(s, f, n), {}) && Exact(UnreserveRange(s, f, n), {})
    decreases n
  {
    hide Exact, ReserveFrame, UnreserveFrame;
    if n > 0 {
      ReserveRangeExact(s, f, n - 1);
      ExactStep(ReserveRange(s, f, n - 1), {}, Reserve(f + n - 1));
      ExactStep(UnreserveRange(s, f, n - 1), {}, Unreserve(f + n - 1));
    }
  }

  lemma {:induction false} UsableExact(s: Frames, mmap: seq<Descriptor>, n: nat)
    requires n <= |mmap| && !InUsable(mmap, n, |s.bits|) && s.hint <= |s.bits| && Exact(s, {})
    requires MEM_FRAME_SIZE * |s.bits| < U64_LIMIT
    ensures Exact(UnreserveUsable(s, mmap, n), {})
    decreases n
  {
    hide Exact, UnreserveRange;
    if n > 0 {
      UsableExact(s, mmap, n - 1);
      if Usable(mmap[n - 1]) {
        ReserveRangeExact(UnreserveUsable(s, mmap, n - 1), mmap[n - 1].physAddr / MEM_FRAME_SIZE, mmap[n - 1].numPages);
      }
    }
  }

  /** The frames that the last call of boot takes: those of its range that were free. */
  ghost function BootLocked(mmap: seq<Descriptor>, total: nat, field: nat): set<nat> {
    set f: nat | f < 8 * BitmapSize(total) && f >= LOW_FRAMES
      && Within(f, field / MEM_FRAME_SIZE, BitmapSize(total) / MEM_FRAME_SIZE + 1)
      && (f > total / MEM_FRAME_SIZE || InUsable(mmap, |mmap|, f))
  }

  lemma BootTakes(s: Frames, mmap: seq<Descriptor>, total: nat, field: nat)
    ensures NewlyTaken(BeforeLock(s, mmap, total).bits, field / MEM_FRAME_SIZE, BitmapSize(total) / MEM_FRAME_SIZE + 1)
      == BootLocked(mmap, total, field)
  {
    hide ReserveRange, UnreserveUsable, InUsable;
    var s0 := s.(bits := seq(8 * BitmapSize(total), _ => false), free := total);
    var s1 := ReserveRange(s0, 0, total / MEM_FRAME_SIZE + 1);
    RangeBits(s0, 0, total / MEM_FRAME_SIZE + 1);
    UsableBits(s1, mmap, |mmap|);
    RangeBits(UnreserveUsable(s1, mmap, |mmap|), 0, LOW_FRAMES);
  }

  lemma BeforeLockExact(s: Frames, mmap: seq<Descriptor>, total: nat)
    requires LOW_FRAMES <= 8 * BitmapSize(total) && !InUsable(mmap, |mmap|, 8 * BitmapSize(total))
    requires s.hint == 0 && s.used == 0 && s.reserved == 0 && MEM_FRAME_SIZE * 8 * BitmapSize(total) < U64_LIMIT
    ensures Exact(BeforeLock(s, mmap, total), {}) && BeforeLock(s, mmap, total).hint == 0
  {
    var s0 := s.(bits := seq(8 * BitmapSize(total), _ => false), free := total);
    CountNone(8 * BitmapSize(total));
    TotalFits(total);
    assert Exact(s0, {});
    hide Exact, ReserveRange, UnreserveUsable, InUsable;
    var s1 := ReserveRange(s0, 0, total / MEM_FRAME_SIZE + 1);
    ReserveRangeExact(s0, 0, total / MEM_FRAME_SIZE + 1);
    UsableExact(s1, mmap, |mmap|);
    ReserveRangeExact(UnreserveUsable(s1, mmap, |mmap|), 0, LOW_FRAMES);
  }

  /**
   * After boot the used counter is exactly the size of the frames that its last call
   * takes; the three counters add up to the total without wrap-around exactly when the
   * frames taken are no more than the total.
   */
  lemma BootExact(s: Frames, mmap: seq<Descriptor>, total: nat, field: nat)
    requires BootInRange(mmap, total, field) && s.hint == 0 && s.used == 0 && s.reserved == 0
    requires MEM_FRAME_SIZE * 8 * BitmapSize(total) < U64_LIMIT
    ensures var b := BootState(s, mmap, total, field);
      && Exact(b, BootLocked(mmap, total, field))
      && (b.free + b.used + b.reserved == total <==> MEM_FRAME_SIZE * CountSet(b.bits) <= total)
  {
    BootBalanced(s, mmap, total, field);
    BeforeLockExact(s, mmap, total);
    BootTakes(s, mmap, total, field);
    TotalFits(total);
    hide Exact, Balanced, LockRange, CountSet, InUsable, BootLocked, NewlyTaken;
    var first, n := field / MEM_FRAME_SIZE, BitmapSize(total) / MEM_FRAME_SIZE + 1;
    assert BootState(s, mmap, total, field) == LockRange(BeforeLock(s, mmap, total), first, n);
    hide BootState, BeforeLock;
    LockRangeExact(BeforeLock(s, mmap, total), {}, first, n);
    assert {} + BootLocked(mmap, total, field) == BootLocked(mmap, total, field);
    ExactSum(BootState(s, mmap, total, field), BootLocked(mmap, total, field), total);
  }

  lemma TotalFits(total: nat)
    requires MEM_FRAME_SIZE * 8 * BitmapSize(total) < U64_LIMIT
    ensures total < U64_LIMIT && total / MEM_FRAME_SIZE + 1 <= 8 * BitmapSize(total)
  {
    LastFrame(total);
  }

  lemma {:induction false} CountAtLeast(bits: seq<bool>, n: nat)
    requires n <= |bits| && forall j :: 0 <= j < n ==> bits[j]
    ensures CountSet(bits) >= n
    decreases |bits|
  {
    if n > 0 {
      CountAtLeast(bits[..|bits| - 1], if n == |bits| then n - 1 else n);
    }
  }

  /**
   * For every size of memory the first loop of boot takes one frame more than there is:
   * the free counter passes below zero, and the counters add up to 2^64 too much.
   */
  lemma ReserveLoopWraps(total: nat)
    requires MEM_FRAME_SIZE * 8 * BitmapSize(total) < U64_LIMIT
    ensures var s0 := Frames(seq(8 * BitmapSize(total), _ => false), 0, total, 0, 0);
      var s := ReserveRange(s0, 0, total / MEM_FRAME_SIZE + 1);
      s.free + s.used + s.reserved == total + U64_LIMIT
  {
    var n := total / MEM_FRAME_SIZE + 1;
    var s0 := Frames(seq(8 * BitmapSize(total), _ => false), 0, total, 0, 0);
    CountNone(8 * BitmapSize(total));
    TotalFits(total);
    assert Exact(s0, {}) && Balanced(s0, total);
    hide Exact, Balanced, ReserveRange, CountSet;
    ReserveRangeExact(s0, 0, n);
    RangeBalanced(s0, 0, n, total);
    var s := ReserveRange(s0, 0, n);
    RangeBits(s0, 0, n);
    CountAtLeast(s.bits, n);
    ExactSum(s, {}, total);
  }

  /**
   * The free-memory counter after boot falls short of the frames that requests can
   * still return: one frame because the last call reserves one frame too many, and
   * one for each spare bit.
   */
  lemma FreeCounterFallsShort(s: Frames, mmap: seq<Descriptor>, total: nat, field: nat)
    requires BootInRange(mmap, total, field) && s.hint == 0 && s.used == 0 && s.reserved == 0
    requires total % MEM_FRAME_SIZE == 0 && total < U64_LIMIT
    ensures var b := BootState(s, mmap, total, field);
      Wrap(b.free) == Wrap(MEM_FRAME_SIZE * (CountClear(b.bits) - (8 - total / MEM_FRAME_SIZE % 8)))
  {
    BootBalanced(s, mmap, total, field);
    var b := BootState(s, mmap, total, field);
    LastFrame(total);
    hide BootState, CountSet;
    WrapDifference(b.free, b.used + b.reserved, total, MEM_FRAME_SIZE * CountSet(b.bits));
  }

  lemma WrapDifference(a: int, b: int, x: int, y: int)
    requires Wrap(a + b) == Wrap(x) && Wrap(b) == Wrap(y)
    ensures Wrap(a) == Wrap(x - y)
  {
    hide Wrap;
    WrapLate(a + b, -b);
    WrapLate(x, -b);
    WrapMinus(x, b);
    WrapMinus(x, y);
  }
}

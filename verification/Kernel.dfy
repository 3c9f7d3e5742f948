// InitializeMemory (rizzos/src/kernel.c:24-55), without the final write to CR3.
module Kernels {
  import opened Options
  import opened Bits
  import opened Paging
  import opened MemoryMaps
  import opened PageFrames
  import opened BootFrames
  import opened PageTables
  import opened Storages
  import opened MapPages
  import opened AddressSpaces
  import opened MapRuns
  import opened IdentityMaps
  import opened PageTableManagers

  /** The arguments of InitializeMemory, with the kernel's linker symbols. */
  datatype BootData = BootData(mmap: seq<Descriptor>, kernelStart: nat, kernelEnd: nat, fbBase: nat, fbSize: nat,
                               field: nat)

  function KernelPages(d: BootData): nat
    requires d.kernelStart <= d.kernelEnd
  {
    (d.kernelEnd - d.kernelStart) / MEM_FRAME_SIZE + 1
  }

  /**
   * What the code needs of its arguments and does not check: no range that it locks holds
   * the first frame behind the bit set, and addresses are below 2^48.  The frame buffer
   * may lie inside memory, past its end, or on both sides.
   */
  predicate DataInRange(d: BootData, total: nat) {
    && BootInRange(d.mmap, total, d.field)
    && d.kernelStart <= d.kernelEnd
    && !Within(8 * BitmapSize(total), d.kernelStart / MEM_FRAME_SIZE, KernelPages(d))
    && !Within(8 * BitmapSize(total), d.fbBase / MEM_FRAME_SIZE, d.fbSize / MEM_FRAME_SIZE + 1)
    && 8 * BitmapSize(total) <= FRAME_LIMIT && total <= ADDRESS_SPACE && d.fbBase + d.fbSize <= ADDRESS_SPACE
  }

  /** The allocator when the root table is requested. */
  function LockedState(d: BootData, total: nat): (s: Frames)
    requires DataInRange(d, total)
    ensures |s.bits| == 8 * BitmapSize(total) && s.hint == 0
  {
    var booted := BootState(Frames([], 0, 0, 0, 0), d.mmap, total, d.field);
    LockRange(LockRange(booted, d.kernelStart / MEM_FRAME_SIZE, KernelPages(d)),
              d.fbBase / MEM_FRAME_SIZE, d.fbSize / MEM_FRAME_SIZE + 1)
  }

  /** Exactly which frames are free then. */
  lemma LockedBits(d: BootData, total: nat, f: nat)
    requires DataInRange(d, total) && f < 8 * BitmapSize(total)
    ensures !LockedState(d, total).bits[f] <==>
      && f >= LOW_FRAMES
      && !Within(f, d.field / MEM_FRAME_SIZE, BitmapSize(total) / MEM_FRAME_SIZE + 1)
      && !Within(f, d.kernelStart / MEM_FRAME_SIZE, KernelPages(d))
      && !Within(f, d.fbBase / MEM_FRAME_SIZE, d.fbSize / MEM_FRAME_SIZE + 1)
      && (f > total / MEM_FRAME_SIZE || InUsable(d.mmap, |d.mmap|, f))
  {
    hide BootState, LockRange, InUsable;
    var boot := BootState(Frames([], 0, 0, 0, 0), d.mmap, total, d.field);
    BootBits(Frames([], 0, 0, 0, 0), d.mmap, total, d.field, f);
    RangeBits(boot, d.kernelStart / MEM_FRAME_SIZE, KernelPages(d));
    RangeBits(LockRange(boot, d.kernelStart / MEM_FRAME_SIZE, KernelPages(d)),
              d.fbBase / MEM_FRAME_SIZE, d.fbSize / MEM_FRAME_SIZE + 1);
  }

  // ----- the bytes of the kernel and of the frame buffer

  /** The code locks enough pages for so many bytes from an address on. */
  predicate Covered(base: nat, size: nat) {
    size % MEM_FRAME_SIZE == 0 || base % MEM_FRAME_SIZE + size % MEM_FRAME_SIZE <= MEM_FRAME_SIZE
  }

  /** Every byte's frame is among the size / 4096 + 1 frames, but for the last frame of some unaligned ranges. */
  lemma BytesWithin(base: nat, size: nat, a: nat)
    requires base <= a < base + size
    ensures Covered(base, size) || a / MEM_FRAME_SIZE < (base + size - 1) / MEM_FRAME_SIZE ==>
      Within(a / MEM_FRAME_SIZE, base / MEM_FRAME_SIZE, size / MEM_FRAME_SIZE + 1)
  {
    LastWithin(base, size);
    FramesInOrder(base, a);
    FramesInOrder(a, base + size - 1);
  }

  lemma LastWithin(base: nat, size: nat)
    requires size > 0
    ensures Within((base + size - 1) / MEM_FRAME_SIZE, base / MEM_FRAME_SIZE, size / MEM_FRAME_SIZE + 1)
      <==> Covered(base, size)
    ensures (base + size - 1) / MEM_FRAME_SIZE <= base / MEM_FRAME_SIZE + size / MEM_FRAME_SIZE + 1
  {
    var p, r := base / MEM_FRAME_SIZE, base % MEM_FRAME_SIZE;
    var q, t := size / MEM_FRAME_SIZE, size % MEM_FRAME_SIZE;
    assert base + size - 1 == MEM_FRAME_SIZE * (p + q) + (r + t - 1);
  }

  lemma FramesInOrder(a: nat, b: nat)
    requires a <= b
    ensures a / MEM_FRAME_SIZE <= b / MEM_FRAME_SIZE
  {
  }

  /** Every byte of the kernel image whose frame has a bit is locked, for instance when the image is page-aligned. */
  lemma ImageLocked(d: BootData, total: nat, a: nat)
    requires DataInRange(d, total) && d.kernelStart <= a < d.kernelEnd && a / MEM_FRAME_SIZE < 8 * BitmapSize(total)
    requires Covered(d.kernelStart, d.kernelEnd - d.kernelStart)
      || a / MEM_FRAME_SIZE < (d.kernelEnd - 1) / MEM_FRAME_SIZE
    ensures LockedState(d, total).bits[a / MEM_FRAME_SIZE]
  {
    hide LockedState, DataInRange, Covered;
    BytesWithin(d.kernelStart, d.kernelEnd - d.kernelStart, a);
    LockedBits(d, total, a / MEM_FRAME_SIZE);
  }

  /** So is every byte of the frame buffer. */
  lemma BufferLocked(d: BootData, total: nat, a: nat)
    requires DataInRange(d, total) && d.fbBase <= a < d.fbBase + d.fbSize && a / MEM_FRAME_SIZE < 8 * BitmapSize(total)
    requires Covered(d.fbBase, d.fbSize) || a / MEM_FRAME_SIZE < (d.fbBase + d.fbSize - 1) / MEM_FRAME_SIZE
    ensures LockedState(d, total).bits[a / MEM_FRAME_SIZE]
  {
    hide LockedState, DataInRange, Covered;
    BytesWithin(d.fbBase, d.fbSize, a);
    LockedBits(d, total, a / MEM_FRAME_SIZE);
  }

  lemma AlignedIsCovered(base: nat, size: nat)
    requires base % MEM_FRAME_SIZE == 0
    ensures Covered(base, size)
  {
  }

  /**
   * When nothing else keeps the last frame of the image, it is locked exactly when the
   * offset of the image and the length of its last part fit one page.
   */
  lemma LastImageFrame(d: BootData, total: nat)
    requires DataInRange(d, total) && d.kernelStart < d.kernelEnd
    requires var f := (d.kernelEnd - 1) / MEM_FRAME_SIZE;
      && LOW_FRAMES <= f < 8 * BitmapSize(total) && InUsable(d.mmap, |d.mmap|, f)
      && !Within(f, d.field / MEM_FRAME_SIZE, BitmapSize(total) / MEM_FRAME_SIZE + 1)
      && !Within(f, d.fbBase / MEM_FRAME_SIZE, d.fbSize / MEM_FRAME_SIZE + 1)
    ensures LockedState(d, total).bits[(d.kernelEnd - 1) / MEM_FRAME_SIZE]
      <==> Covered(d.kernelStart, d.kernelEnd - d.kernelStart)
  {
    hide LockedState, DataInRange, Covered, InUsable;
    LastWithin(d.kernelStart, d.kernelEnd - d.kernelStart);
    LockedBits(d, total, (d.kernelEnd - 1) / MEM_FRAME_SIZE);
  }

  /** An image of 0x1900 bytes from the middle of a page: two frames are locked, and its end lies in a third. */
  lemma UnalignedImageMissed()
    ensures !Within((0x20_0800 + 0x1900 - 1) / MEM_FRAME_SIZE, 0x20_0800 / MEM_FRAME_SIZE, 0x1900 / MEM_FRAME_SIZE + 1)
  {
    LastWithin(0x20_0800, 0x1900);
  }

  // ----- memory for boot

  /** The frames that hold the bit set. */
  function BootStorage(d: BootData, total: nat): FrameRange {
    StorageFrames(LargestUsable(d.mmap, |d.mmap|).0, BitmapSize(total))
  }

  /**
   * The machine with the new root, before anything is mapped.  `ram` has one frame for
   * each bit, whether or not there is memory behind the last ones.
   */
  function RootState(ram: seq<Table>, d: BootData, total: nat): Machine
    requires DataInRange(d, total) && |ram| == 8 * BitmapSize(total) && !Full(LockedState(d, total).bits)
  {
    var request := RequestFrame(LockedState(d, total));
    var root := request.1 / MEM_FRAME_SIZE;
    RequestInRam(LockedState(d, total));
    Machine(ram[root := ZeroTable()], request.0, root)
  }

  lemma LoopFits(d: BootData)
    requires d.fbBase + d.fbSize <= ADDRESS_SPACE
    ensures d.fbBase + LoopPages(d.fbSize) * MEM_FRAME_SIZE < ADDRESS_SPACE + MEM_FRAME_SIZE
    ensures forall k: nat :: k * MEM_FRAME_SIZE < d.fbSize <==> k < LoopPages(d.fbSize)
  {
  }

  /** The tables that both loops need, besides the root. */
  function BootTables(d: BootData, total: nat): nat {
    TablesFor(total / MEM_FRAME_SIZE) + Added(total / MEM_FRAME_SIZE, d.fbBase, LoopPages(d.fbSize))
  }

  /** The bit set has clear bits for the root and the tables. */
  predicate EnoughFrames(d: BootData, total: nat)
    requires DataInRange(d, total)
  {
    CountClear(LockedState(d, total).bits) >= 1 + BootTables(d, total)
  }

  /** So it has without the bits for frames past the end of memory. */
  predicate EnoughMemory(d: BootData, total: nat)
    requires DataInRange(d, total)
  {
    FrameInSet(total);
    EnoughFrames(d, total) && ClearBelow(LockedState(d, total).bits, total / MEM_FRAME_SIZE + 1) >= 1 + BootTables(d, total)
  }

  lemma FrameInSet(total: nat)
    ensures total / MEM_FRAME_SIZE + 1 <= 8 * BitmapSize(total)
  {
    LastFrame(total);
  }

  lemma NotAllTaken(d: BootData, total: nat)
    requires DataInRange(d, total) && EnoughFrames(d, total)
    ensures !Full(LockedState(d, total).bits)
  {
    hide LockedState, CountSet;
    NotFull(LockedState(d, total).bits);
  }

  /** The root and all tables pass the bit set by: it is locked, or enough clear frames lie below it. */
  ghost predicate StorageSpared(d: BootData, total: nat)
    requires DataInRange(d, total)
  {
    Spared(LockedState(d, total).bits, BootStorage(d, total), 1 + BootTables(d, total))
  }

  /** The same question for the frames past the end of memory. */
  lemma EnoughMemoryMeaning(d: BootData, total: nat)
    requires DataInRange(d, total) && EnoughFrames(d, total)
    ensures EnoughMemory(d, total) <==> Spared(LockedState(d, total).bits, PastMemory(total), 1 + BootTables(d, total))
  {
    hide LockedState, BootTables, ClearBelow;
    FrameInSet(total);
    var bits, first := LockedState(d, total).bits, total / MEM_FRAME_SIZE + 1;
    if AllTaken(bits, PastMemory(total)) {
      assert forall f :: first <= f < |bits| ==> PastMemory(total).Has(f);
      ClearBelowGrows(bits, first, |bits|);
      AllBelow(bits);
    }
  }

  function FirstLoop(ram: seq<Table>, d: BootData, total: nat): Machine
    requires DataInRange(d, total) && |ram| == 8 * BitmapSize(total) && EnoughFrames(d, total)
  {
    NotAllTaken(d, total);
    MapIdentity(RootState(ram, d, total), 0, total / MEM_FRAME_SIZE)
  }

  function MappedState(ram: seq<Table>, d: BootData, total: nat): Machine
    requires DataInRange(d, total) && |ram| == 8 * BitmapSize(total) && EnoughFrames(d, total)
  {
    LoopFits(d);
    MapIdentity(FirstLoop(ram, d, total), d.fbBase, LoopPages(d.fbSize))
  }

  // ----- the tables of both loops

  ghost function FirstTables(ram: seq<Table>, d: BootData, total: nat): map<nat, Slot>
    requires DataInRange(d, total) && |ram| == 8 * BitmapSize(total) && EnoughFrames(d, total)
  {
    NotAllTaken(d, total);
    IdentityTables(RootState(ram, d, total), RootOnly(RootState(ram, d, total)), 0, total / MEM_FRAME_SIZE)
  }

  ghost function MappedTables(ram: seq<Table>, d: BootData, total: nat): map<nat, Slot>
    requires DataInRange(d, total) && |ram| == 8 * BitmapSize(total) && EnoughFrames(d, total)
  {
    LoopFits(d);
    IdentityTables(FirstLoop(ram, d, total), FirstTables(ram, d, total), d.fbBase, LoopPages(d.fbSize))
  }

  lemma RootIsEmpty(ram: seq<Table>, d: BootData, total: nat)
    requires DataInRange(d, total) && |ram| == 8 * BitmapSize(total) && !Full(LockedState(d, total).bits)
    ensures EmptyRoot(RootState(ram, d, total))
    ensures CountClear(RootState(ram, d, total).frames.bits) == CountClear(LockedState(d, total).bits) - 1
    ensures var root := RootState(ram, d, total).root;
      && root < |ram| == |RootState(ram, d, total).ram|
      && !LockedState(d, total).bits[root] && RootState(ram, d, total).frames.bits[root]
      && (forall j :: 0 <= j < root ==> LockedState(d, total).bits[j])
      && RootState(ram, d, total).frames.bits == LockedState(d, total).bits[root := true]
  {
    hide LockedState, CountSet, Wrap;
    var s := LockedState(d, total);
    RequestInRam(s);
    var f := FirstClear(s.bits, s.hint);
    CountAfterWrite(s.bits, f, true);
    assert f * MEM_FRAME_SIZE / MEM_FRAME_SIZE == f;
  }

  /** After the root, requests for the tables pass by whatever all requests pass by. */
  lemma RootPasses(ram: seq<Table>, d: BootData, total: nat, store: FrameRange)
    requires DataInRange(d, total) && |ram| == 8 * BitmapSize(total) && EnoughFrames(d, total)
    requires Spared(LockedState(d, total).bits, store, 1 + BootTables(d, total))
    ensures !Full(LockedState(d, total).bits)
    ensures var m0 := RootState(ram, d, total);
      && EmptyRoot(m0) && !store.Has(m0.root) && Apart(RootOnly(m0), store)
      && Spared(m0.frames.bits, store, BootTables(d, total)) && CountClear(m0.frames.bits) >= BootTables(d, total)
      && Lowest(LockedState(d, total).bits, m0.frames.bits, 1)
  {
    hide LockedState, CountClear, BootTables, Spared, EmptyRoot, Lowest, RootState;
    NotAllTaken(d, total);
    RootIsEmpty(ram, d, total);
    var bits, m0 := LockedState(d, total).bits, RootState(ram, d, total);
    LowestFirst(bits, m0.root);
    SparedLater(bits, m0.frames.bits, store, 1, BootTables(d, total));
    SparedFirst(bits, store, 1 + BootTables(d, total), m0.root);
  }

  /** Both loops, for any range of frames that the requests pass by. */
  lemma BothLoops(ram: seq<Table>, d: BootData, total: nat, store: FrameRange)
    requires DataInRange(d, total) && |ram| == 8 * BitmapSize(total) && EnoughFrames(d, total)
    requires Spared(LockedState(d, total).bits, store, 1 + BootTables(d, total))
    ensures !Full(LockedState(d, total).bits)
    ensures var m0, m1 := RootState(ram, d, total), FirstLoop(ram, d, total);
      var t0, t1 := RootOnly(m0), FirstTables(ram, d, total);
      && EmptyRoot(m0) && !store.Has(m0.root)
      && Inv(m0, t0) && Apart(t0, store) && Enough(m0, store, 0, total / MEM_FRAME_SIZE)
      && Inv(m1, t1) && Apart(t1, store)
      && d.fbBase + LoopPages(d.fbSize) * MEM_FRAME_SIZE < ADDRESS_SPACE + MEM_FRAME_SIZE
      && Enough(m1, store, d.fbBase, LoopPages(d.fbSize))
      && Inv(MappedState(ram, d, total), MappedTables(ram, d, total))
      && Grows(m0, t0, MappedState(ram, d, total), MappedTables(ram, d, total), BootTables(d, total))
      && Lowest(LockedState(d, total).bits, m0.frames.bits, 1)
      && forall w: nat :: (
        Translate(m1, Indices(w)) ==
          if PageNumber(w) < total / MEM_FRAME_SIZE then Some(Page(PageNumber(w), true)) else None)
  {
    hide Inv, EmptyRoot, CountClear, TablesFor, Translate, Indices, PageNumber, MapIdentity, Enough, LockedState, Lowest;
    hide RootState, LoopPages, Grows, Spared, IdentityTables, Opened, Added, Apart, DataInRange, EnoughFrames;
    var n := total / MEM_FRAME_SIZE;
    DataFits(d, total);
    LoopFits(d);
    RootPasses(ram, d, total, store);
    var m0 := RootState(ram, d, total);
    EmptyRootInv(m0);
    var more := Added(n, d.fbBase, LoopPages(d.fbSize));
    SparedLess(m0.frames.bits, store, TablesFor(n), TablesFor(n) + more);
    BootLoop(m0, store, n);
    BootLoopCounts(m0, store, n);
    var m1, t1 := FirstLoop(ram, d, total), FirstTables(ram, d, total);
    EnoughClear(m0, RootOnly(m0), m1, t1, TablesFor(n), TablesFor(n) + more);
    LowestOf(m0, RootOnly(m0), m1, t1, TablesFor(n));
    SparedLater(m0.frames.bits, m1.frames.bits, store, TablesFor(n), more);
    LoopCounts(m1, t1, store, n, d.fbBase, LoopPages(d.fbSize));
    GrowsTwice(m0, RootOnly(m0), m1, t1, MappedState(ram, d, total), MappedTables(ram, d, total), TablesFor(n), more);
  }

  lemma DataFits(d: BootData, total: nat)
    requires DataInRange(d, total)
    ensures d.fbBase + d.fbSize <= ADDRESS_SPACE && total / MEM_FRAME_SIZE <= 0x10_0000_0000
  {
  }

  // ----- the theorems about boot

  /** Whatever range of frames the requests pass by, the tables keep off it. */
  lemma BothLoopsTranslate(ram: seq<Table>, d: BootData, total: nat, store: FrameRange)
    requires DataInRange(d, total) && |ram| == 8 * BitmapSize(total) && EnoughFrames(d, total)
    requires Spared(LockedState(d, total).bits, store, 1 + BootTables(d, total))
    ensures forall w: nat :: (
      Translate(MappedState(ram, d, total), Indices(w)) ==
        if PageNumber(w) < total / MEM_FRAME_SIZE || InPages(PageNumber(w), d.fbBase, LoopPages(d.fbSize))
        then Some(Page(PageNumber(w), true)) else None)
    ensures Inv(MappedState(ram, d, total), MappedTables(ram, d, total))
    ensures Apart(MappedTables(ram, d, total), store)
  {
    hide Inv, EmptyRoot, CountClear, Translate, Indices, PageNumber, MapIdentity, Enough, LockedState, RootState, Lowest;
    hide LoopPages, Grows, BootStorage, Spared, BootTables, Apart, EnoughFrames, IdentityTables, FirstLoop, FirstTables;
    BothLoops(ram, d, total, store);
    LoopFits(d);
    IdentityTranslates(FirstLoop(ram, d, total), FirstTables(ram, d, total), store, d.fbBase, LoopPages(d.fbSize));
  }

  /**
   * After boot every page of memory and every page that the frame buffer loop visits,
   * wherever the buffer lies, translates to itself, writable, and no other address
   * translates at all; all tables lie in usable memory and off the bit set.
   */
  lemma BootTranslates(ram: seq<Table>, d: BootData, total: nat)
    requires DataInRange(d, total) && |ram| == 8 * BitmapSize(total) && EnoughMemory(d, total)
    requires StorageSpared(d, total)
    ensures forall w: nat :: (
      Translate(MappedState(ram, d, total), Indices(w)) ==
        if PageNumber(w) < total / MEM_FRAME_SIZE || InPages(PageNumber(w), d.fbBase, LoopPages(d.fbSize))
        then Some(Page(PageNumber(w), true)) else None)
    ensures Inv(MappedState(ram, d, total), MappedTables(ram, d, total))
    ensures Apart(MappedTables(ram, d, total), BootStorage(d, total))
    ensures forall f: nat :: IsTable(MappedState(ram, d, total), f) ==>
      f <= total / MEM_FRAME_SIZE && InUsable(d.mmap, |d.mmap|, f)
  {
    hide Inv, Translate, Indices, PageNumber, LockedState, MappedState, MappedTables, LoopPages, BootStorage, Spared;
    hide BootTables, Apart, EnoughMemory, IsTable, BootInRange, InUsable;
    MemoryHasFrames(d, total);
    BothLoopsTranslate(ram, d, total, BootStorage(d, total));
    forall f: nat | IsTable(MappedState(ram, d, total), f)
      ensures f <= total / MEM_FRAME_SIZE && InUsable(d.mmap, |d.mmap|, f)
    {
      TableIsUsable(ram, d, total, f);
    }
  }

  lemma MemoryHasFrames(d: BootData, total: nat)
    requires DataInRange(d, total) && EnoughMemory(d, total)
    ensures EnoughFrames(d, total)
  {
  }

  lemma TableIsUsable(ram: seq<Table>, d: BootData, total: nat, f: nat)
    requires DataInRange(d, total) && |ram| == 8 * BitmapSize(total) && EnoughMemory(d, total)
    requires IsTable(MappedState(ram, d, total), f)
    ensures f <= total / MEM_FRAME_SIZE && InUsable(d.mmap, |d.mmap|, f)
  {
    hide LockedState, MappedState, BootTables, IsTable, BootInRange, InUsable, ClearBelow;
    TableHasBit(ram, d, total, f);
    BootTableFrames(ram, d, total, f);
    LockedBits(d, total, f);
    if f > total / MEM_FRAME_SIZE {
      ClearBelowGrows(LockedState(d, total).bits, total / MEM_FRAME_SIZE + 1, f);
    }
  }

  lemma TableHasBit(ram: seq<Table>, d: BootData, total: nat, f: nat)
    requires DataInRange(d, total) && |ram| == 8 * BitmapSize(total) && EnoughFrames(d, total)
    requires IsTable(MappedState(ram, d, total), f)
    ensures f < 8 * BitmapSize(total)
  {
    hide LockedState, MappedState, MappedTables, BootTables, IsTable, EnoughFrames, DataInRange, Translate, HintSound;
    hide TreeDown, NoLargePages, Apart, Spared;
    EmptyRange(LockedState(d, total).bits, 1 + BootTables(d, total));
    BothLoopsTranslate(ram, d, total, FrameRange(0, 0));
    RamStays(ram, d, total);
    TableIffReached(MappedState(ram, d, total), MappedTables(ram, d, total), f);
  }

  /** Requests for boot's tables pass the empty range by, whatever is clear. */
  lemma EmptyRange(bits: seq<bool>, n: nat)
    ensures Spared(bits, FrameRange(0, 0), n)
  {
  }

  /** The tables of boot are exactly the lowest frames that were clear. */
  lemma BootTableFrames(ram: seq<Table>, d: BootData, total: nat, f: nat)
    requires DataInRange(d, total) && |ram| == 8 * BitmapSize(total) && EnoughFrames(d, total)
    requires f < 8 * BitmapSize(total)
    ensures IsTable(MappedState(ram, d, total), f)
      <==> !LockedState(d, total).bits[f] && ClearBelow(LockedState(d, total).bits, f) < 1 + BootTables(d, total)
  {
    hide Inv, EmptyRoot, CountClear, MapIdentity, Enough, LockedState, Grows, Spared, BootTables, Apart, Lowest;
    hide EnoughFrames, IdentityTables, FirstLoop, FirstTables, RootState, MappedState, MappedTables, ClearBelow;
    hide IsTable, Translate, Indices, PageNumber, LoopPages, BootInRange;
    var bits := LockedState(d, total).bits;
    EmptyRange(bits, 1 + BootTables(d, total));
    BothLoops(ram, d, total, FrameRange(0, 0));
    RootIsEmpty(ram, d, total);
    var m0 := RootState(ram, d, total);
    var m, t := MappedState(ram, d, total), MappedTables(ram, d, total);
    TableIffReached(m, t, f);
    LowestFirst(bits, m0.root);
    LowestAt(bits, m0.frames.bits, 1, f);
    LowestLeaves(bits, m0.frames.bits, 1, f);
    if f == m0.root {
      TablesKept(m0, RootOnly(m0), m, t, BootTables(d, total), f);
    } else {
      NewTables(m0, RootOnly(m0), m, t, BootTables(d, total), f);
    }
  }

  lemma TablesKept(m: Machine, t: map<nat, Slot>, m': Machine, t': map<nat, Slot>, added: nat, f: nat)
    requires Grows(m, t, m', t', added) && f in t
    ensures f in t'
  {
  }

  ghost predicate TableOn(m: Machine, store: FrameRange) {
    exists f: nat :: store.Has(f) && f < |m.ram| && IsTable(m, f)
  }

  /** Boot puts no table on a range of frames exactly when its requests pass the range by. */
  lemma BootSpares(ram: seq<Table>, d: BootData, total: nat, store: FrameRange)
    requires DataInRange(d, total) && |ram| == 8 * BitmapSize(total) && EnoughFrames(d, total)
    ensures !TableOn(MappedState(ram, d, total), store)
      <==> Spared(LockedState(d, total).bits, store, 1 + BootTables(d, total))
  {
    hide CountClear, LockedState, BootTables, EnoughFrames, MappedState, ClearBelow, IsTable, BootInRange;
    var bits, n := LockedState(d, total).bits, 1 + BootTables(d, total);
    RamStays(ram, d, total);
    var after := Taken(bits, n);
    SparedMeaning(bits, after, store, n);
    forall f: nat | f < |bits|
      ensures IsTable(MappedState(ram, d, total), f) <==> after[f] != bits[f]
    {
      BootTableFrames(ram, d, total, f);
    }
  }

  /**
   * Boot puts no table on its own bit set exactly when the bit set is locked by chance
   * or at least as many clear frames lie below it as boot takes.  (Up to the first
   * frame on the bit set all marks are intact, so the requests of the code return the
   * frames that they return here.)
   */
  lemma BootSparesStorage(ram: seq<Table>, d: BootData, total: nat)
    requires DataInRange(d, total) && |ram| == 8 * BitmapSize(total) && EnoughFrames(d, total)
    ensures !TableOn(MappedState(ram, d, total), BootStorage(d, total)) <==> StorageSpared(d, total)
  {
    hide LockedState, BootTables, EnoughFrames, MappedState, BootStorage, DataInRange, Spared, TableOn;
    BootSpares(ram, d, total, BootStorage(d, total));
  }

  /**
   * Boot puts no table past the end of memory exactly when the clear frames up to that
   * end are as many as boot takes.
   */
  lemma BootStaysInMemory(ram: seq<Table>, d: BootData, total: nat)
    requires DataInRange(d, total) && |ram| == 8 * BitmapSize(total) && EnoughFrames(d, total)
    ensures (forall f: nat :: IsTable(MappedState(ram, d, total), f) ==> f <= total / MEM_FRAME_SIZE)
      <==> EnoughMemory(d, total)
  {
    hide LockedState, BootTables, EnoughFrames, EnoughMemory, MappedState, BootInRange, Spared, IsTable;
    BootSpares(ram, d, total, PastMemory(total));
    EnoughMemoryMeaning(d, total);
    RamStays(ram, d, total);
    forall f: nat | IsTable(MappedState(ram, d, total), f)
      ensures f < 8 * BitmapSize(total)
    {
      TableHasBit(ram, d, total, f);
    }
  }

  /** No table of boot lies on a frame of the kernel image or of the frame buffer. */
  lemma TablesOffImage(ram: seq<Table>, d: BootData, total: nat, a: nat)
    requires DataInRange(d, total) && |ram| == 8 * BitmapSize(total) && EnoughFrames(d, total)
    requires (d.kernelStart <= a < d.kernelEnd && Covered(d.kernelStart, d.kernelEnd - d.kernelStart))
      || (d.fbBase <= a < d.fbBase + d.fbSize && Covered(d.fbBase, d.fbSize))
    ensures !IsTable(MappedState(ram, d, total), a / MEM_FRAME_SIZE)
  {
    hide LockedState, MappedState, BootTables, EnoughFrames, IsTable, BootInRange, Covered, ClearBelow;
    var f := a / MEM_FRAME_SIZE;
    if IsTable(MappedState(ram, d, total), f) {
      TableHasBit(ram, d, total, f);
      BootTableFrames(ram, d, total, f);
      if d.kernelStart <= a < d.kernelEnd && Covered(d.kernelStart, d.kernelEnd - d.kernelStart) {
        ImageLocked(d, total, a);
      } else {
        BufferLocked(d, total, a);
      }
    }
  }

  /**
   * When the memory map has no overlaps and covers the frames below n, of whatever kinds
   * its descriptors are, every address in any of them translates to itself after boot.
   */
  lemma MapTranslates(ram: seq<Table>, d: BootData, total: nat, n: nat, k: nat, w: nat)
    requires Disjoint(d.mmap) && CoversBelow(d.mmap, n) && n < FRAME_LIMIT && total == TotalSize(d.mmap, |d.mmap|)
    requires DataInRange(d, total) && |ram| == 8 * BitmapSize(total) && EnoughMemory(d, total) && StorageSpared(d, total)
    requires k < |d.mmap| && InDescriptor(d.mmap[k], w / MEM_FRAME_SIZE)
    ensures total == n * MEM_FRAME_SIZE
    ensures Translate(MappedState(ram, d, total), Indices(w)) == Some(Page(w / MEM_FRAME_SIZE, true))
  {
    hide DataInRange, EnoughMemory, StorageSpared, MappedState, Translate, Indices, TotalSize, EnoughFrames;
    hide FramesOf, Disjoint, InDescriptor;
    TotalSizeOfMemory(d.mmap, n);
    InFramesOf(d.mmap, |d.mmap|, w / MEM_FRAME_SIZE);
    PageTranslates(ram, d, total, w);
  }

  lemma PageTranslates(ram: seq<Table>, d: BootData, total: nat, w: nat)
    requires DataInRange(d, total) && |ram| == 8 * BitmapSize(total) && EnoughMemory(d, total) && StorageSpared(d, total)
    requires w / MEM_FRAME_SIZE < total / MEM_FRAME_SIZE
    ensures EnoughFrames(d, total)
    ensures Translate(MappedState(ram, d, total), Indices(w)) == Some(Page(w / MEM_FRAME_SIZE, true))
  {
    hide BootInRange, EnoughMemory, StorageSpared, MappedState, Translate, Indices, IsTable, Inv;
    hide LockedState, BootTables, InUsable, Apart, MappedTables;
    MemoryHasFrames(d, total);
    BootTranslates(ram, d, total);
    assert PageNumber(w) == w / MEM_FRAME_SIZE;
  }

  lemma RamStays(ram: seq<Table>, d: BootData, total: nat)
    requires DataInRange(d, total) && |ram| == 8 * BitmapSize(total) && EnoughFrames(d, total)
    ensures |MappedState(ram, d, total).ram| == 8 * BitmapSize(total)
  {
    hide MapIdentity, LockedState, EnoughFrames;
    NotAllTaken(d, total);
    LoopFits(d);
    SameRam(RootState(ram, d, total), 0, total / MEM_FRAME_SIZE);
    SameRam(FirstLoop(ram, d, total), d.fbBase, LoopPages(d.fbSize));
  }

  lemma {:induction false} SameRam(m: Machine, start: nat, n: nat)
    requires start + n * MEM_FRAME_SIZE <= U64_LIMIT
    ensures |MapIdentity(m, start, n).ram| == |m.ram|
    decreases n
  {
    hide NextTable, PutLeaf, Indices;
    if n > 0 {
      SameRam(m, start, n - 1);
    }
  }

  /** The bits after n requests. */
  ghost function Taken(bits: seq<bool>, n: nat): (after: seq<bool>)
    ensures Lowest(bits, after, n)
  {
    seq(|bits|, f requires 0 <= f < |bits| => bits[f] || ClearBelow(bits, f) < n)
  }

  /**
   * Boot maps the null page to frame 0, which is no table and which no request returns:
   * a write through a null pointer, as MEM_HeapSegHdrSplit makes, changes no table.  It
   * changes the bit set only if that starts in frame 0.
   */
  lemma NullPageIsNoTable(ram: seq<Table>, d: BootData, total: nat, offset: nat)
    requires DataInRange(d, total) && |ram| == 8 * BitmapSize(total) && EnoughMemory(d, total)
    requires StorageSpared(d, total) && offset < MEM_FRAME_SIZE
    ensures Translate(MappedState(ram, d, total), Indices(offset)) == Some(Page(0, true))
    ensures !IsTable(MappedState(ram, d, total), 0) && LockedState(d, total).bits[0]
    ensures BootStorage(d, total).Has(0) <==> LargestUsable(d.mmap, |d.mmap|).0 < MEM_FRAME_SIZE
  {
    hide LockedState, MappedState, MappedTables, BootTables, IsTable, InUsable, Translate, Indices, Spared;
    hide LargestUsable, EnoughMemory, DataInRange, Inv, InPages;
    MemoryHasFrames(d, total);
    MemoryNotEmpty(d, total);
    BootTranslates(ram, d, total);
    BootTableFrames(ram, d, total, 0);
    LockedBits(d, total, 0);
    assert PageNumber(offset) == 0;
  }

  lemma MemoryNotEmpty(d: BootData, total: nat)
    requires DataInRange(d, total)
    ensures total / MEM_FRAME_SIZE > 0
  {
    LastFrame(total);
  }

  /**
   * From boot into the runs of the kernel, for any range of frames, such as those of
   * the bit set or those past the end of memory: as long as the operations take no more
   * than the clear frames that boot leaves below the range, every run that touches
   * neither tables nor the range keeps the invariant, and no table lies on the range.
   */
  lemma BootThenRun(ram: seq<Table>, d: BootData, total: nat, store: FrameRange, ops: seq<KernelOp>, m': Machine)
    requires DataInRange(d, total) && |ram| == 8 * BitmapSize(total) && EnoughFrames(d, total)
    requires LeadsLoosely(MappedState(ram, d, total), store, ops, m') && store.first <= 8 * BitmapSize(total)
    requires 1 + BootTables(d, total) + Budget(MappedState(ram, d, total), ops)
      <= ClearBelow(LockedState(d, total).bits, store.first)
    ensures Leads(MappedState(ram, d, total), store, ops, m')
    ensures exists tables :: Inv(m', tables) && Apart(tables, store)
  {
    hide Inv, EmptyRoot, CountClear, MapIdentity, Enough, LockedState, Grows, BootTables, Apart, Lowest, Spared;
    hide EnoughFrames, IdentityTables, FirstLoop, FirstTables, RootState, MappedState, MappedTables, ClearBelow;
    hide Translate, Indices, PageNumber, LoopPages, Leads, LeadsLoosely, BootInRange;
    var bits := LockedState(d, total).bits;
    var n := 1 + BootTables(d, total);
    assert Spared(bits, store, n) by { EnoughBelow(bits, store, n); }
    BothLoops(ram, d, total, store);
    BothLoopsTranslate(ram, d, total, store);
    var m0, m := RootState(ram, d, total), MappedState(ram, d, total);
    LowestOf(m0, RootOnly(m0), m, MappedTables(ram, d, total), BootTables(d, total));
    LowestTwice(bits, m0.frames.bits, m.frames.bits, 1, BootTables(d, total));
    LowestLeaves(bits, m.frames.bits, n, store.first);
    SameLength(bits, m.frames.bits, n);
    BudgetSuffices(m, MappedTables(ram, d, total), store, ops, m');
    var tables := RunKeepsInv(m, MappedTables(ram, d, total), store, ops, m');
  }

  lemma EnoughBelow(bits: seq<bool>, store: FrameRange, n: nat)
    requires store.first <= |bits| && n <= ClearBelow(bits, store.first)
    ensures Spared(bits, store, n)
  {
  }

  lemma SameLength(bits: seq<bool>, bits': seq<bool>, k: nat)
    requires Lowest(bits, bits', k)
    ensures |bits'| == |bits|
  {
  }

  // ----- the code

  /** Before turn k of a mapping loop that has enough frames, the call may be made. */
  lemma {:induction false} LoopReady(m: Machine, tables: map<nat, Slot>, store: FrameRange, start: nat, n: nat, k: nat)
    requires start + n * MEM_FRAME_SIZE < ADDRESS_SPACE + MEM_FRAME_SIZE && k < n
    requires Inv(m, tables) && Apart(tables, store) && Enough(m, store, start, n)
    ensures Inv(MapIdentity(m, start, k), IdentityTables(m, tables, start, k))
    ensures Apart(IdentityTables(m, tables, start, k), store)
    ensures Ready(MapIdentity(m, start, k), store, Indices(start + k * MEM_FRAME_SIZE))
    decreases n
  {
    hide Inv, MapIdentity, IdentityTables, Ready, Apart, MapMemory, Indices, Translate, PageNumber;
    if k == n - 1 {
      IdentityTranslates(m, tables, store, start, k);
    } else {
      LoopReady(m, tables, store, start, n - 1, k);
    }
  }

  /** Maps the pages from an address on to themselves, while the address is below the end. */
  method MapToSelf(ptm: PageTableManager, start: nat, end: nat, ghost n: nat, ghost tables: map<nat, Slot>)
    requires ptm.Valid() && start + n * MEM_FRAME_SIZE < ADDRESS_SPACE + MEM_FRAME_SIZE
    requires forall k: nat :: start + k * MEM_FRAME_SIZE < end <==> k < n
    requires Inv(ptm.State(), tables) && Apart(tables, ptm.pfa.Storage())
    requires Enough(ptm.State(), ptm.pfa.Storage(), start, n)
    modifies ptm.ram, ptm.pfa, ptm.pfa.bitmap.buffer
    ensures ptm.Valid() && ptm.State() == MapIdentity(old(ptm.State()), start, n)
    ensures ptm.pfa.Storage() == old(ptm.pfa.Storage())
  {
    hide Inv, Enough, Ready, Apart, MapMemory, PageTableManager.State;
    ghost var m, store := ptm.State(), ptm.pfa.Storage();
    var i := start;
    ghost var k: nat := 0;
    while i < end
      invariant i == start + k * MEM_FRAME_SIZE && k <= n
      invariant ptm.Valid() && ptm.State() == MapIdentity(m, start, k) && ptm.pfa.Storage() == store
      decreases n - k
    {
      assert k < n;
      LoopReady(m, tables, store, start, n, k);
      ptm.MapMemory(i, i, IdentityTables(m, tables, start, k));
      i := i + MEM_FRAME_SIZE;
      k := k + 1;
    }
    assert start + k * MEM_FRAME_SIZE >= end;
  }

  /** InitializeMemory. */
  method InitializeMemory(ptm: PageTableManager, cache: SizeCache, d: BootData)
    requires ptm.pfa.Valid()
    requires !ptm.pfa.initialized && ptm.pfa.State() == Frames([], 0, 0, 0, 0) && cache.memorySize == 0
    requires DataInRange(d, TotalSize(d.mmap, |d.mmap|)) && TotalSize(d.mmap, |d.mmap|) > 0
    requires ptm.ram.Length == 8 * BitmapSize(TotalSize(d.mmap, |d.mmap|))
    requires EnoughMemory(d, TotalSize(d.mmap, |d.mmap|)) && StorageSpared(d, TotalSize(d.mmap, |d.mmap|))
    modifies ptm, ptm.ram, ptm.pfa, ptm.pfa.bitmap, cache
    ensures ptm.Valid() && ptm.State() == MappedState(old(ptm.ram[..]), d, TotalSize(d.mmap, |d.mmap|))
    ensures ptm.pfa.Storage() == BootStorage(d, TotalSize(d.mmap, |d.mmap|))
  {
    hide BootState, LockRange, Enough, LockFrame, CountClear, MapMemory, TablesFor, Inv, EmptyRoot, Full, RequestFrame;
    hide TotalSize, ZeroTable, Wrap, LoopPages, IdentityTables, RootOnly, MapIdentity, Grows, Spared, Apart, BootTables;
    hide LargestUsable, Lowest, Translate, Indices, PageNumber;
    ghost var ram, total := ptm.ram[..], TotalSize(d.mmap, |d.mmap|);
    ghost var store := BootStorage(d, total);
    var pfa := ptm.pfa;
    pfa.InitEfiMemoryMap(d.mmap, cache, d.field);
    var kernelSize := d.kernelEnd - d.kernelStart;
    var kernelPages := kernelSize / MEM_FRAME_SIZE + 1;
    pfa.LockPages(d.kernelStart, kernelPages);
    pfa.LockPages(d.fbBase, d.fbSize / MEM_FRAME_SIZE + 1);
    assert pfa.State() == LockedState(d, total);
    assert pfa.Storage() == store;
    BothLoops(ram, d, total, store);
    var pml4 := pfa.RequestPage();
    RequestInRam(LockedState(d, total));
    ghost var m0 := RootState(ram, d, total);
    assert m0.root == pml4 / MEM_FRAME_SIZE;
    ZeroFrame(ptm.ram, pml4 / MEM_FRAME_SIZE, store);
    ptm.Create(pml4);
    assert ptm.State() == m0;
    var memorySize := cache.GetTotalSize(d.mmap);
    TotalSizeAligned(d.mmap, |d.mmap|);
    MapToSelf(ptm, 0, memorySize, total / MEM_FRAME_SIZE, RootOnly(m0));
    LoopFits(d);
    MapToSelf(ptm, d.fbBase, d.fbBase + d.fbSize, LoopPages(d.fbSize), FirstTables(ram, d, total));
  }
}

// A memory map on which boot puts its root table on the bit set, and what follows
// (rizzos/src/paging/page_frame_allocator.c:38-64, rizzos/src/kernel.c:38-40).
module KernelExamples {
  import opened Options
  import opened Paging
  import opened MemoryMaps
  import opened PageFrames
  import opened BootFrames
  import opened PageTables
  import opened Storages
  import opened AddressSpaces
  import opened MapRuns
  import opened IdentityMaps
  import opened Kernels

  const EIGHT_MIB: nat := 0x80_0000

  /** One mebibyte in use, seven that are free; the kernel and the frame buffer lie in the middle. */
  function Map(): seq<Descriptor> {
    [Descriptor(0, 0, 0x100), Descriptor(7, 0x10_0000, 0x700)]
  }

  function Data(): BootData {
    BootData(Map(), 0x20_0000, 0x24_0000, 0x40_0000, 0x10_0000, 0x20_0000)
  }

  lemma MapFacts()
    ensures TotalSize(Map(), |Map()|) == EIGHT_MIB && LargestUsable(Map(), |Map()|) == (0x10_0000, 0x70_0000)
    ensures forall f: nat :: InUsable(Map(), |Map()|, f) <==> 0x100 <= f < 0x800
  {
    TwoDescriptors();
    forall f: nat
      ensures InUsable(Map(), |Map()|, f) <==> 0x100 <= f < 0x800
    {
      assert Usable(Map()[1]) && !Usable(Map()[0]);
      assert InUsable(Map(), |Map()|, f) <==> InDescriptor(Map()[1], f);
    }
  }

  lemma TwoDescriptors()
    ensures TotalSize(Map(), 0) == 0 && TotalSize(Map(), 1) == 0x10_0000 && TotalSize(Map(), 2) == EIGHT_MIB
    ensures LargestUsable(Map(), 0) == (0, 0) && LargestUsable(Map(), 1) == (0, 0)
    ensures LargestUsable(Map(), 2) == (0x10_0000, 0x70_0000)
  {
  }

  lemma DataFacts()
    ensures DataInRange(Data(), EIGHT_MIB) && BootStorage(Data(), EIGHT_MIB) == FrameRange(0x100, 1)
    ensures BootTables(Data(), EIGHT_MIB) == 6
  {
    MapFacts();
    hide LargestUsable, InUsable, TotalSize, Map;
    assert Data().mmap == Map();
    assert LoopPages(0x10_0000) == 0x100;
  }

  /** The first seven frames from one mebibyte on are clear, and all below are taken. */
  lemma LockedFrames(f: nat)
    requires f < 0x107
    ensures DataInRange(Data(), EIGHT_MIB)
    ensures LockedState(Data(), EIGHT_MIB).bits[f] <==> f < 0x100
  {
    DataFacts();
    MapFacts();
    hide LockedState, InUsable, LargestUsable, Map;
    assert Data().mmap == Map();
    LockedBits(Data(), EIGHT_MIB, f);
  }

  /**
   * Here nothing else is wrong with the arguments, but the bit set is where the first
   * request finds its frame: the root table.  Filling it with zeros erases every mark, and
   * the request for the next table returns the frame of the root once more.
   */
  lemma BootOverwritesStorage(ram: seq<Table>)
    requires |ram| == 8 * BitmapSize(EIGHT_MIB)
    ensures TotalSize(Data().mmap, |Data().mmap|) == EIGHT_MIB && DataInRange(Data(), EIGHT_MIB)
    ensures EnoughMemory(Data(), EIGHT_MIB) && !StorageSpared(Data(), EIGHT_MIB)
    ensures !Full(LockedState(Data(), EIGHT_MIB).bits)
    ensures var m := RootState(ram, Data(), EIGHT_MIB);
      && BootStorage(Data(), EIGHT_MIB).Has(m.root)
      && (forall f: nat :: f < |m.frames.bits| ==> !Erased(m.frames.bits, 0x10_0000, m.root)[f])
      && RequestFrame(m.frames.(bits := Erased(m.frames.bits, 0x10_0000, m.root))).1 == m.root * MEM_FRAME_SIZE
  {
    DataFacts();
    MapFacts();
    hide TotalSize, LargestUsable, DataInRange, BootStorage, BootTables, LockedState, Map;
    assert Data().mmap == Map();
    var s := LockedState(Data(), EIGHT_MIB);
    forall f | 0 <= f < 0x107
      ensures s.bits[f] <==> f < 0x100
    {
      LockedFrames(f);
    }
    ClearRun(s.bits, 0x100, 7);
    ClearBelowGrows(s.bits, 0x107, EIGHT_MIB / MEM_FRAME_SIZE + 1);
    ClearBelowGrows(s.bits, EIGHT_MIB / MEM_FRAME_SIZE + 1, |s.bits|);
    AllBelow(s.bits);
    LowestFirst(s.bits, 0x100);
    assert !Full(s.bits);
    NotSpared(s.bits);
    assert FirstClear(s.bits, 0) == 0x100;
    RootIsEmpty(ram, Data(), EIGHT_MIB);
    var m := RootState(ram, Data(), EIGHT_MIB);
    assert HintSound(s) && s.bits[0];
    HandedOutTwice(s, 0x10_0000);
    BytesInFrame(m.frames.bits);
  }

  lemma NotSpared(bits: seq<bool>)
    requires |bits| > 0x100 && !bits[0x100] && ClearBelow(bits, 0x100) == 0
    ensures !Spared(bits, FrameRange(0x100, 1), 7)
  {
    assert FrameRange(0x100, 1).Has(0x100);
  }

  /** All 257 bytes of the bit set lie in frame 0x100. */
  lemma BytesInFrame(bits: seq<bool>)
    requires |bits| == 8 * BitmapSize(EIGHT_MIB)
    ensures forall f: nat :: f < |bits| ==> !Erased(bits, 0x10_0000, 0x100)[f]
    ensures ByteFrame(0x10_0000, 0x100 / 8) == 0x100
  {
  }

  /** On the same map frame 0x801 has a bit and is handed out, though memory ends at frame 0x800. */
  lemma SpareFrameIsClear(s: Frames)
    ensures BootInRange(Map(), EIGHT_MIB, 0x20_0000)
    ensures 0x801 < 8 * BitmapSize(EIGHT_MIB) && 0x801 > EIGHT_MIB / MEM_FRAME_SIZE
    ensures !BootState(s, Map(), EIGHT_MIB, 0x20_0000).bits[0x801] && !InUsable(Map(), |Map()|, 0x801)
  {
    DataFacts();
    hide BootState;
    BootBits(s, Map(), EIGHT_MIB, 0x20_0000, 0x801);
  }

  /** And the frame with the bit set is clear after the boot code has locked what it takes for it. */
  lemma StorageFrameIsClear(s: Frames)
    ensures BootInRange(Map(), EIGHT_MIB, 0x20_0000)
    ensures LargestUsable(Map(), |Map()|).0 / MEM_FRAME_SIZE == 0x100
    ensures !BootState(s, Map(), EIGHT_MIB, 0x20_0000).bits[0x100]
  {
    DataFacts();
    MapFacts();
    hide BootState, LargestUsable;
    BitmapStorageNotLocked(s, Map(), EIGHT_MIB, 0x20_0000);
  }

  // ----- a map with too little usable memory

  /** Eight mebibytes of which the first and six frames at the end are usable. */
  function FullMap(): seq<Descriptor> {
    [Descriptor(7, 0, 0x100), Descriptor(0, 0x10_0000, 0x6FA), Descriptor(7, 0x7F_A000, 6)]
  }

  function FullData(): BootData {
    BootData(FullMap(), 0x20_0000, 0x24_0000, 0x40_0000, 0x10_0000, 0x20_0000)
  }

  lemma FullMapFacts()
    ensures TotalSize(FullMap(), |FullMap()|) == EIGHT_MIB && LargestUsable(FullMap(), |FullMap()|) == (0, 0x10_0000)
    ensures forall f: nat :: InUsable(FullMap(), |FullMap()|, f) <==> f < 0x100 || 0x7FA <= f < 0x800
  {
    var map3 := FullMap();
    assert TotalSize(map3, 0) == 0 && TotalSize(map3, 1) == 0x10_0000 && TotalSize(map3, 2) == 0x7F_A000;
    assert LargestUsable(map3, 0) == (0, 0) && LargestUsable(map3, 1) == (0, 0x10_0000);
    assert LargestUsable(map3, 2) == (0, 0x10_0000);
    forall f: nat
      ensures InUsable(map3, |map3|, f) <==> f < 0x100 || 0x7FA <= f < 0x800
    {
      assert Usable(map3[0]) && !Usable(map3[1]) && Usable(map3[2]);
      assert InUsable(map3, |map3|, f) <==> InDescriptor(map3[0], f) || InDescriptor(map3[2], f);
    }
  }

  lemma FullDataFacts()
    ensures DataInRange(FullData(), EIGHT_MIB) && BootStorage(FullData(), EIGHT_MIB) == FrameRange(0, 1)
    ensures BootTables(FullData(), EIGHT_MIB) == 6
  {
    FullMapFacts();
    hide LargestUsable, InUsable, TotalSize, FullMap;
    assert FullData().mmap == FullMap();
    assert LoopPages(0x10_0000) == 0x100;
  }

  /** Six frames of memory are clear, and the spare bits behind frame 0x800. */
  lemma SixClear(bits: seq<bool>)
    requires |bits| == 0x808 && forall f :: 0 <= f < 0x808 ==> (!bits[f] <==> 0x7FA <= f && f != 0x800)
    ensures ClearBelow(bits, 0x801) == 6 && CountClear(bits) >= 7
  {
    hide ClearBelow;
    NoneBelow(bits);
    ClearBelowGrows(bits, 0, 0x7FA);
    ClearBelowStep(bits, 0x7FA);
    ClearBelowStep(bits, 0x7FB);
    ClearBelowStep(bits, 0x7FC);
    ClearBelowStep(bits, 0x7FD);
    ClearBelowStep(bits, 0x7FE);
    ClearBelowStep(bits, 0x7FF);
    ClearBelowStep(bits, 0x800);
    ClearBelowStep(bits, 0x801);
    ClearBelowGrows(bits, 0x802, 0x808);
    AllBelow(bits);
  }

  /**
   * Here the bit set is locked and has a clear bit for every table, but the seventh of
   * them stands for a frame past the end of memory, and boot puts a table there.
   */
  lemma BootLeavesMemory(ram: seq<Table>)
    requires |ram| == 8 * BitmapSize(EIGHT_MIB)
    ensures TotalSize(FullData().mmap, |FullData().mmap|) == EIGHT_MIB && DataInRange(FullData(), EIGHT_MIB)
    ensures EnoughFrames(FullData(), EIGHT_MIB) && StorageSpared(FullData(), EIGHT_MIB)
    ensures !EnoughMemory(FullData(), EIGHT_MIB)
    ensures 0x801 > EIGHT_MIB / MEM_FRAME_SIZE && IsTable(MappedState(ram, FullData(), EIGHT_MIB), 0x801)
  {
    FullDataFacts();
    FullMapFacts();
    hide TotalSize, LargestUsable, DataInRange, BootStorage, BootTables, LockedState, FullMap, IsTable, MappedState;
    hide InUsable;
    assert FullData().mmap == FullMap();
    var bits := LockedState(FullData(), EIGHT_MIB).bits;
    forall f | 0 <= f < 0x808
      ensures !bits[f] <==> 0x7FA <= f && f != 0x800
    {
      LockedBits(FullData(), EIGHT_MIB, f);
    }
    SixClear(bits);
    BootTableFrames(ram, FullData(), EIGHT_MIB, 0x801);
  }

  // ----- a frame buffer outside memory

  const QUARTER_GIB: nat := 0x1000_0000

  /** 256 mebibytes with two usable ranges, the larger one from four mebibytes on. */
  function FarMap(): seq<Descriptor> {
    [Descriptor(0, 0, 0x100), Descriptor(7, 0x10_0000, 0x200), Descriptor(0, 0x30_0000, 0x100),
     Descriptor(7, 0x40_0000, 0xFC00)]
  }

  /** The frame buffer has four mebibytes from the address 2 GiB on. */
  function FarData(): BootData {
    BootData(FarMap(), 0x20_0000, 0x24_0000, 0x8000_0000, 0x40_0000, 0x20_0000)
  }

  lemma FarMapFacts()
    ensures TotalSize(FarMap(), |FarMap()|) == QUARTER_GIB && LargestUsable(FarMap(), |FarMap()|) == (0x40_0000, 0xFC0_0000)
    ensures forall f: nat :: InUsable(FarMap(), |FarMap()|, f) <==> 0x100 <= f < 0x300 || 0x400 <= f < 0x1_0000
  {
    var map4 := FarMap();
    assert TotalSize(map4, 0) == 0 && TotalSize(map4, 1) == 0x10_0000 && TotalSize(map4, 2) == 0x30_0000;
    assert TotalSize(map4, 3) == 0x40_0000;
    assert LargestUsable(map4, 0) == (0, 0) && LargestUsable(map4, 1) == (0, 0);
    assert LargestUsable(map4, 2) == (0x10_0000, 0x20_0000) == LargestUsable(map4, 3);
    forall f: nat
      ensures InUsable(map4, |map4|, f) <==> 0x100 <= f < 0x300 || 0x400 <= f < 0x1_0000
    {
      assert !Usable(map4[0]) && Usable(map4[1]) && !Usable(map4[2]) && Usable(map4[3]);
      assert InUsable(map4, |map4|, f) <==> InDescriptor(map4[1], f) || InDescriptor(map4[3], f);
    }
  }

  /** For the buffer the second loop takes two tables of the last level and one above them. */
  lemma FarTables()
    ensures DataInRange(FarData(), QUARTER_GIB) && BootStorage(FarData(), QUARTER_GIB) == FrameRange(0x400, 3)
    ensures TablesFor(QUARTER_GIB / MEM_FRAME_SIZE) == 130 && BootTables(FarData(), QUARTER_GIB) == 133
  {
    FarMapFacts();
    hide LargestUsable, InUsable, TotalSize, FarMap;
    assert FarData().mmap == FarMap();
    assert LoopPages(0x40_0000) == 0x400;
  }

  lemma FarLocked(f: nat)
    requires 0x100 <= f < 0x200
    ensures DataInRange(FarData(), QUARTER_GIB)
    ensures !LockedState(FarData(), QUARTER_GIB).bits[f]
  {
    FarTables();
    FarMapFacts();
    hide LockedState, InUsable, LargestUsable, FarMap;
    assert FarData().mmap == FarMap();
    LockedBits(FarData(), QUARTER_GIB, f);
  }

  /** Here boot goes well, and the buffer's first page is mapped although it is no memory. */
  lemma FarBufferIsMapped(ram: seq<Table>)
    requires |ram| == 8 * BitmapSize(QUARTER_GIB)
    ensures TotalSize(FarData().mmap, |FarData().mmap|) == QUARTER_GIB && DataInRange(FarData(), QUARTER_GIB)
    ensures EnoughMemory(FarData(), QUARTER_GIB) && StorageSpared(FarData(), QUARTER_GIB)
    ensures FarData().fbBase / MEM_FRAME_SIZE > 8 * BitmapSize(QUARTER_GIB)
    ensures Translate(MappedState(ram, FarData(), QUARTER_GIB), Indices(FarData().fbBase))
      == Some(Page(FarData().fbBase / MEM_FRAME_SIZE, true))
  {
    FarTables();
    FarMapFacts();
    hide TotalSize, LargestUsable, DataInRange, BootStorage, BootTables, LockedState, FarMap, MappedState, ClearBelow;
    hide Translate, Indices, InUsable;
    assert FarData().mmap == FarMap();
    var bits := LockedState(FarData(), QUARTER_GIB).bits;
    forall f | 0x100 <= f < 0x200
      ensures !bits[f]
    {
      FarLocked(f);
    }
    ClearRun(bits, 0x100, 0x100);
    ClearBelowGrows(bits, 0x200, 0x400);
    ClearBelowGrows(bits, 0x400, QUARTER_GIB / MEM_FRAME_SIZE + 1);
    ClearBelowGrows(bits, QUARTER_GIB / MEM_FRAME_SIZE + 1, |bits|);
    AllBelow(bits);
    BootTranslates(ram, FarData(), QUARTER_GIB);
    assert PageNumber(FarData().fbBase) == FarData().fbBase / MEM_FRAME_SIZE;
    assert LoopPages(0x40_0000) == 0x400;
  }
}

// The page table manager (rizzos/src/paging/page_table_manager.c,
// rizzos/src/paging/page_map_indexer.c).
module PageTableManagers {
  import opened Bits
  import opened Paging
  import opened PageFrames
  import opened PageTables
  import opened Storages
  import opened MapPages
  import opened AddressSpaces
  import opened PageFrameAllocators

  datatype PageMapIndexer = PageMapIndexer(pdp: Index, pd: Index, pt: Index, p: Index)

  /** PMI_Create.  The source stores the indices through a null pointer; here they are returned. */
  method CreateIndexer(virtualAddress: nat) returns (pmi: PageMapIndexer)
    ensures [pmi.pdp, pmi.pd, pmi.pt, pmi.p] == Indices(virtualAddress)
  {
    DivideTwice(virtualAddress, 0x1000, 512);
    DivideTwice(virtualAddress, 0x20_0000, 512);
    DivideTwice(virtualAddress, 0x4000_0000, 512);
    var v := virtualAddress;
    v := v / 0x1000;
    var p := v % 512;
    v := v / 512;
    var pt := v % 512;
    v := v / 512;
    var pd := v % 512;
    v := v / 512;
    var pdp := v % 512;
    pmi := PageMapIndexer(pdp, pd, pt, p);
  }

  /** MEM_Set64 (rizzos/src/memory.c) on one frame of memory, which must not hold the bit set. */
  method ZeroFrame(ram: array<Table>, f: nat, ghost store: FrameRange)
    requires f < ram.Length && !store.Has(f)
    modifies ram
    ensures ram[..] == old(ram[..])[f := ZeroTable()]
  {
    var i := 0;
    while i < MEM_FRAME_SIZE
      invariant i % 8 == 0 && i <= MEM_FRAME_SIZE
      invariant forall j :: 0 <= j < i / 8 ==> ram[f][j] == 0
      invariant forall g :: 0 <= g < ram.Length && g != f ==> ram[g] == old(ram[g])
    {
      ram[f] := ram[f][i / 8 := 0];
      i := i + 8;
    }
    assert ram[f] == ZeroTable();
  }

  /**
   * Memory is held in two places: the frames with the bit set in the allocator, all
   * others in `ram`.  So no method reads or writes a frame of the bit set through `ram`.
   */
  class PageTableManager {
    /** Address of the root table. */
    var pml4: nat
    const pfa: PageFrameAllocator
    /** Physical memory, one table for each frame. */
    const ram: array<Table>

    constructor (pfa: PageFrameAllocator, ram: array<Table>)
      ensures this.pfa == pfa && this.ram == ram && pml4 == 0
    {
      this.pfa := pfa;
      this.ram := ram;
      pml4 := 0;
    }

    ghost predicate Valid()
      reads this, pfa, pfa.bitmap
    {
      pfa.Valid() && ram.Length == 8 * pfa.bitmap.size
    }

    ghost function State(): (m: Machine)
      requires Valid()
      reads this, ram, pfa, pfa.bitmap, pfa.bitmap.buffer
      ensures |m.ram| == ram.Length == |m.frames.bits| && m.root == pml4 / MEM_FRAME_SIZE
      ensures m.frames == pfa.State()
    {
      Machine(ram[..], pfa.State(), pml4 / MEM_FRAME_SIZE)
    }

    /** PTM_Create. */
    method Create(pml4Address: nat)
      requires Valid()
      modifies this
      ensures Valid() && State() == old(State()).(root := pml4Address / MEM_FRAME_SIZE)
    {
      pml4 := pml4Address;
    }

    /** An entry is stored in a table. */
    method PutEntry(table: nat, index: Index, pde: PageDirEntry)
      requires table < ram.Length && !pfa.Storage().Has(table)
      modifies ram
      ensures ram[..] == old(ram[..])[table := old(ram[table])[index := pde.value]]
    {
      ram[table] := ram[table][index := pde.value];
    }

    /**
     * One level of PTM_MapMemory: the table behind an entry, created when it is
     * missing.  The source writes this out three times.
     */
    method Next(table: nat, index: Index) returns (next: nat)
      requires Valid() && CanStep(State(), pfa.Storage(), table / MEM_FRAME_SIZE, index)
      modifies ram, pfa, pfa.bitmap.buffer
      ensures Valid() && pfa.Storage() == old(pfa.Storage())
      ensures (State(), next / MEM_FRAME_SIZE) == NextTable(old(State()), table / MEM_FRAME_SIZE, index)
      ensures next == next / MEM_FRAME_SIZE * MEM_FRAME_SIZE
    {
      hide WithFlag, WithAddress, HasFlag, AddressOf, LockFrame, RequestFrame, ZeroTable, HintSound, Spared, Full;
      ghost var m := State();
      ghost var f := table / MEM_FRAME_SIZE;
      var pde := new PageDirEntry(ram[table / MEM_FRAME_SIZE][index]);
      var present := pde.GetFlag(PT_PRESENT);
      if !present {
        NewFrame(m, pfa.Storage());
        next := pfa.RequestPage();
        ZeroFrame(ram, next / MEM_FRAME_SIZE, pfa.Storage());
        pde.SetAddress(next / MEM_FRAME_SIZE);
        pde.SetFlag(PT_PRESENT, true);
        pde.SetFlag(PT_READWRITE, true);
        assert pde.value == Link(m.ram[f][index], next / MEM_FRAME_SIZE);
        PutEntry(table / MEM_FRAME_SIZE, index, pde);
        TableStored(m, f, index, next / MEM_FRAME_SIZE, ram[..]);
      } else {
        var address := pde.GetAddress();
        next := address * MEM_FRAME_SIZE;
      }
    }

    /** PTM_MapMemory. */
    method MapMemory(virtualMemory: nat, physicalMemory: Word, ghost tables: map<nat, Slot>)
      requires Valid() && Inv(State(), tables) && Apart(tables, pfa.Storage())
      requires Ready(State(), pfa.Storage(), Indices(virtualMemory))
      modifies ram, pfa, pfa.bitmap.buffer
      ensures Valid() && State() == AddressSpaces.MapMemory(old(State()), virtualMemory, physicalMemory)
      ensures pfa.Storage() == old(pfa.Storage())
    {
      hide WithFlag, WithAddress, HasFlag, AddressOf, NextTable, Tree, Reach, CountSet, CanStep, Apart, Ready;
      ghost var m := State();
      ghost var p := Indices(virtualMemory);
      var indexer := CreateIndexer(virtualMemory);
      DescendInRam(m, tables, pfa.Storage(), p);
      var pdp := Next(pml4, indexer.pdp);
      var pd := Next(pdp, indexer.pd);
      var pt := Next(pd, indexer.pt);
      var pde := new PageDirEntry(ram[pt / MEM_FRAME_SIZE][indexer.p]);
      pde.SetAddress(physicalMemory / MEM_FRAME_SIZE);
      pde.SetFlag(PT_PRESENT, true);
      pde.SetFlag(PT_READWRITE, true);
      PutEntry(pt / MEM_FRAME_SIZE, indexer.p, pde);
    }
  }

  lemma TableStored(m: Machine, f: nat, i: Index, c: nat, ram: seq<Table>)
    requires f < |m.ram| && c < |m.ram| && c != f && m.frames.hint <= |m.frames.bits|
    requires !HasFlag(m.ram[f][i], PT_PRESENT) && c == RequestFrame(m.frames).1 / MEM_FRAME_SIZE && c < U64_LIMIT
    requires ram == m.ram[c := ZeroTable()][f := m.ram[f][i := Link(m.ram[f][i], c)]]
    ensures NextTable(m, f, i) == (Machine(ram, RequestFrame(m.frames).0, m.root), c)
  {
    hide WithFlag, WithAddress, HasFlag, AddressOf, RequestFrame, ZeroTable, Link;
    assert c % U64_LIMIT == c;
  }

  /** The frame for a new table. */
  lemma NewFrame(m: Machine, store: FrameRange)
    requires HintSound(m.frames) && !Full(m.frames.bits) && Spared(m.frames.bits, store, 1)
    ensures var address := RequestFrame(m.frames).1;
      && address / MEM_FRAME_SIZE < |m.frames.bits| && address == address / MEM_FRAME_SIZE * MEM_FRAME_SIZE
      && !m.frames.bits[address / MEM_FRAME_SIZE] && !store.Has(address / MEM_FRAME_SIZE)
  {
    hide Spared;
    RequestInRam(m.frames);
    SparedFirst(m.frames.bits, store, 1, RequestFrame(m.frames).1 / MEM_FRAME_SIZE);
  }

  lemma RequestInRam(s: Frames)
    requires HintSound(s) && !Full(s.bits)
    ensures var address := RequestFrame(s).1;
      address / MEM_FRAME_SIZE < |s.bits| && address == address / MEM_FRAME_SIZE * MEM_FRAME_SIZE
    ensures !s.bits[RequestFrame(s).1 / MEM_FRAME_SIZE]
  {
    var f := FirstClear(s.bits, s.hint);
    assert f < |s.bits|;
    assert f * MEM_FRAME_SIZE / MEM_FRAME_SIZE == f;
  }

  /** The table of a step exists, apart from the bit set, and so does the frame for a new one. */
  ghost predicate CanStep(m: Machine, store: FrameRange, f: nat, i: Index) {
    && f < |m.ram| <= FRAME_LIMIT && |m.ram| == |m.frames.bits| && HintSound(m.frames) && !store.Has(f)
    && (Child(m.ram, f, i).None? ==> !Full(m.frames.bits) && m.frames.bits[f] && Spared(m.frames.bits, store, 1))
  }

  lemma CanStepAt(m: Machine, tables: map<nat, Slot>, store: FrameRange, p: PagePath, k: nat)
    requires Inv(m, tables) && Apart(tables, store) && k < 3 && Reach(m.ram, m.root, p[..k]).Some?
    requires CountClear(m.frames.bits) >= One(Reach(m.ram, m.root, p[..k + 1]).None?)
    requires Spared(m.frames.bits, store, One(Reach(m.ram, m.root, p[..k + 1]).None?))
    ensures CanStep(m, store, Reach(m.ram, m.root, p[..k]).value, p[k])
  {
    hide Child, CountSet, Full, HintSound, TreeDown, Spared;
    ReachedIsTable(m.ram, m.root, tables, p[..k]);
    ReachStep(m.ram, m.root, p[..k], p[k]);
    assert p[..k] + [p[k]] == p[..k + 1];
    if Child(m.ram, Reach(m.ram, m.root, p[..k]).value, p[k]).None? {
      NotFull(m.frames.bits);
    }
  }

  /** After a level that passes the bit set by, the next levels do. */
  lemma StepSpared(m: Machine, t: map<nat, Slot>, m': Machine, t': map<nat, Slot>, store: FrameRange, a: nat, b: nat)
    requires Grows(m, t, m', t', a) && Apart(t, store) && Spared(m.frames.bits, store, a + b)
    ensures Spared(m.frames.bits, store, a) && Apart(t', store) && Spared(m'.frames.bits, store, b)
    ensures CountClear(m'.frames.bits) == CountClear(m.frames.bits) - a && m'.root == m.root
  {
    hide Spared, Apart, CountSet;
    SparedLater(m.frames.bits, m'.frames.bits, store, a, b);
    ApartMeaning(m, t, m', t', a, store);
  }

  lemma DescendInRam(m: Machine, tables: map<nat, Slot>, store: FrameRange, p: PagePath)
    requires Inv(m, tables) && Apart(tables, store) && Ready(m, store, p)
    ensures CanStep(m, store, m.root, p[0])
    ensures var (m1, pdp) := NextTable(m, m.root, p[0]);
      CanStep(m1, store, pdp, p[1])
    ensures var (m1, pdp) := NextTable(m, m.root, p[0]);
      var (m2, pd) := NextTable(m1, pdp, p[1]);
      CanStep(m2, store, pd, p[2])
    ensures Descend(m, p).1 < |m.ram| && !store.Has(Descend(m, p).1)
  {
    hide Inv, Grows, NextTable, GrowTables, CountSet, CountClear, ReachExtended, SameLeaves, CanStep, Spared, Apart;
    var a1 := One(Reach(m.ram, m.root, p[..1]).None?);
    var a2 := One(Reach(m.ram, m.root, p[..2]).None?);
    var a3 := One(Reach(m.ram, m.root, p[..3]).None?);
    assert p[..0] == [];
    DescendStep(m, tables, m.root, p, 0);
    var (m1, pdp) := NextTable(m, m.root, p[0]);
    var t1 := GrowTables(m, tables, m.root, p[0]);
    StepSpared(m, tables, m1, t1, store, a1, a2 + a3);
    CanStepAt(m, tables, store, p, 0);
    ExtendedPrefixes(m, m1, p, 1, pdp);
    DescendStep(m1, t1, pdp, p, 1);
    var (m2, pd) := NextTable(m1, pdp, p[1]);
    var t2 := GrowTables(m1, t1, pdp, p[1]);
    StepSpared(m1, t1, m2, t2, store, a2, a3);
    CanStepAt(m1, t1, store, p, 1);
    ExtendedPrefixes(m1, m2, p, 2, pd);
    DescendStep(m2, t2, pd, p, 2);
    CanStepAt(m2, t2, store, p, 2);
    var (m3, pt) := NextTable(m2, pd, p[2]);
    StepSpared(m2, t2, m3, GrowTables(m2, t2, pd, p[2]), store, a3, 0);
    TableOfInv(m3, GrowTables(m2, t2, pd, p[2]), store, pt);
  }

  lemma TableOfInv(m: Machine, tables: map<nat, Slot>, store: FrameRange, f: nat)
    requires Inv(m, tables) && f in tables && Apart(tables, store)
    ensures f < |m.ram| && !store.Has(f)
  {
  }
}

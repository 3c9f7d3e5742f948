// The heap between its growths: whatever the kernel does in the meantime, as long as it
// keeps off the heap's pages and frames (rizzos/src/memory/heap.c:12-22, 72-77).
module HeapRuns {
  import opened Options
  import opened Paging
  import opened PageFrames
  import opened PageTables
  import opened Storages
  import opened MapPages
  import opened AddressSpaces
  import opened IdentityMaps
  import opened MapRuns
  import opened HeapPages

  /** The operation maps none of the heap's n pages and frees none of its frames. */
  predicate OffHeap(op: KernelOp, start: nat, frames: seq<nat>) {
    match op
    case Map(v, _) => !InPages(PageNumber(v), start, |frames|)
    case FreePage(f) => f !in frames
    case _ => true
  }

  lemma HintOf(m: Machine, tables: map<nat, Slot>)
    requires Inv(m, tables)
    ensures m.frames.hint <= |m.frames.bits|
  {
  }

  /** Nothing but frames that were clear joins the tables. */
  lemma NewTablesWereClear(m: Machine, tables: map<nat, Slot>, store: FrameRange, op: KernelOp, f: nat)
    requires Inv(m, tables) && Legal(m, store, op) && f < |m.frames.bits| && m.frames.bits[f] && f !in tables
    ensures f !in TablesAfter(m, tables, op)
  {
    hide Tree, CountClear, Missing, Reach, IsTable, Indices, MapTables, MapPage, Spared, LeafEntry, Link, Lowest;
    if op.Map? {
      MapPageKeeps(m, tables, Indices(op.v), op.p / MEM_FRAME_SIZE);
    }
  }

  /** One operation that keeps off the heap leaves every heap page mapped as it was. */
  lemma StepKeepsHeap(m: Machine, tables: map<nat, Slot>, store: FrameRange, start: nat, frames: seq<nat>, op: KernelOp)
    requires HeapMapped(m, tables, store, start, frames) && start + |frames| * MEM_FRAME_SIZE <= ADDRESS_SPACE
    requires Legal(m, store, op) && OffHeap(op, start, frames)
    ensures HeapMapped(Execute(m, op), TablesAfter(m, tables, op), store, start, frames)
  {
    hide Inv, Execute, Allowed, TablesAfter, Translate, Indices, PageNumber, Apart, Missing, Spared;
    LegalNamed(m, store, op);
    HintOf(m, tables);
    StepKeepsInv(m, tables, store, op);
    forall k | 0 <= k < |frames|
      ensures Translate(Execute(m, op), Indices(start + k * MEM_FRAME_SIZE)) == Some(Page(frames[k], true))
      ensures frames[k] < |Execute(m, op).frames.bits| && Execute(m, op).frames.bits[frames[k]]
      ensures frames[k] !in TablesAfter(m, tables, op)
    {
      PageOf(start, k);
      StepTranslates(m, tables, store, op, start + k * MEM_FRAME_SIZE);
      StepKeepsTaken(m, tables, store, op, frames[k]);
      NewTablesWereClear(m, tables, store, op, frames[k]);
    }
  }

  /** So does every run. */
  lemma {:induction false} RunKeepsHeap(m: Machine, tables: map<nat, Slot>, store: FrameRange, start: nat, frames: seq<nat>,
                                        ops: seq<KernelOp>, m': Machine)
    returns (tables': map<nat, Slot>)
    requires HeapMapped(m, tables, store, start, frames) && start + |frames| * MEM_FRAME_SIZE <= ADDRESS_SPACE
    requires Leads(m, store, ops, m') && forall op <- ops :: OffHeap(op, start, frames)
    ensures HeapMapped(m', tables', store, start, frames)
    decreases |ops|
  {
    hide HeapMapped, Execute, Legal, TablesAfter, OffHeap, Named;
    if ops == [] {
      tables' := tables;
    } else {
      assert ops[0] in ops;
      LegalNamed(m, store, ops[0]);
      StepKeepsHeap(m, tables, store, start, frames, ops[0]);
      tables' := RunKeepsHeap(Execute(m, ops[0]), TablesAfter(m, tables, ops[0]), store, start, frames, ops[1..], m');
    }
  }

  /** The heap may grow by a page after any such run. */
  lemma GrowsAfterRun(m: Machine, tables: map<nat, Slot>, store: FrameRange, start: nat, frames: seq<nat>,
                      ops: seq<KernelOp>, m': Machine)
    returns (tables': map<nat, Slot>)
    requires HeapMapped(m, tables, store, start, frames)
    requires start + (|frames| + 1) * MEM_FRAME_SIZE <= ADDRESS_SPACE
    requires Leads(m, store, ops, m') && forall op <- ops :: OffHeap(op, start, frames)
    requires EnoughForPage(m', store, start + |frames| * MEM_FRAME_SIZE)
    ensures HeapMapped(MapFreshPage(m', start + |frames| * MEM_FRAME_SIZE), tables', store, start, frames + [FreshFrame(m')])
  {
    hide HeapMapped, Leads, OffHeap, MapFreshPage, FreshFrame, FreshTables, EnoughForPage;
    HintOfPage(m', store, start + |frames| * MEM_FRAME_SIZE);
    var t := RunKeepsHeap(m, tables, store, start, frames, ops, m');
    MapFreshPageKeeps(m', t, store, start, frames);
    tables' := FreshTables(m', t, start + |frames| * MEM_FRAME_SIZE);
  }
}

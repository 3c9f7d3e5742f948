// The kernel heap (rizzos/src/memory/heap.c).
module Heaps {
  import opened Bits
  import opened Paging
  import opened PageFrames
  import opened PageTables
  import opened Storages
  import opened MapPages
  import opened AddressSpaces
  import opened IdentityMaps
  import opened PageFrameAllocators
  import opened PageTableManagers
  import opened HeapBlocks
  import opened HeapPages

  /** PTM_MapMemory(pos, PFA_RequestPage()), n times, a page further each time. */
  method MapHeapPages(ptm: PageTableManager, start: nat, n: nat, ghost tables: map<nat, Slot>) returns (pos: nat)
    requires ptm.Valid() && start + n * MEM_FRAME_SIZE <= ADDRESS_SPACE
    requires Inv(ptm.State(), tables) && Apart(tables, ptm.pfa.Storage())
    requires EnoughForPages(ptm.State(), ptm.pfa.Storage(), start, n)
    modifies ptm.ram, ptm.pfa, ptm.pfa.bitmap.buffer
    ensures ptm.Valid() && ptm.State() == MapFresh(old(ptm.State()), start, n)
    ensures pos == start + n * MEM_FRAME_SIZE && ptm.pfa.Storage() == old(ptm.pfa.Storage())
  {
    hide Inv, EnoughForPage, EnoughForPages, PageTableManager.State, PageFrameAllocator.State, MapMemory;
    hide RequestFrame, HeapMapped, Missing, CountClear, Wrap, Translate, Indices, PageNumber;
    hide Apart, Ready, Spared;
    ghost var m, store := ptm.State(), ptm.pfa.Storage();
    pos := start;
    for i := 0 to n
      invariant pos == start + i * MEM_FRAME_SIZE
      invariant ptm.Valid() && ptm.State() == MapFresh(m, start, i) && ptm.pfa.Storage() == store
    {
      EnoughPrefix(m, store, start, n, i);
      ghost var t, frames := HeapGrows(m, tables, store, start, i);
      ghost var before := MapFresh(m, start, i);
      HeapInv(before, t, store, start, frames);
      HintOfPage(before, store, pos);
      RequestKeeps(before, t, store, pos);
      FrameBound(before, t);
      StateParts(ptm);
      var page := ptm.pfa.RequestPage();
      StateParts(ptm);
      assert ptm.State() == before.(frames := RequestFrame(before.frames).0);
      ptm.MapMemory(pos, page, t);
      pos := pos + MEM_FRAME_SIZE;
    }
  }

  lemma StateParts(ptm: PageTableManager)
    requires ptm.Valid()
    ensures ptm.State() == Machine(ptm.ram[..], ptm.pfa.State(), ptm.pml4 / MEM_FRAME_SIZE)
  {
  }

  lemma {:induction false} EnoughPrefix(m: Machine, store: FrameRange, start: nat, n: nat, k: nat)
    requires EnoughForPages(m, store, start, n) && k < n
    ensures EnoughForPages(m, store, start, k) && EnoughForPage(MapFresh(m, start, k), store, start + k * MEM_FRAME_SIZE)
    decreases n
  {
    hide EnoughForPage, MapFresh;
    if k < n - 1 {
      EnoughPrefix(m, store, start, n - 1, k);
    }
  }

  class Heap {
    const ptm: PageTableManager
    /** The headers in the heap's memory, by address. */
    var hdrs: map<nat, Header>
    var heapStart: nat
    var heapEnd: nat
    var lastHdr: nat

    constructor (ptm: PageTableManager)
      ensures this.ptm == ptm && State() == Blocks(map[], NULL, NULL, NULL)
    {
      this.ptm := ptm;
      hdrs := map[];
      heapStart, heapEnd, lastHdr := NULL, NULL, NULL;
    }

    ghost function State(): Blocks
      reads this
    {
      Blocks(hdrs, heapStart, heapEnd, lastHdr)
    }

    function Load(a: nat): Header
      reads this
    {
      if a in hdrs then hdrs[a] else Header(0, NULL, NULL, false)
    }

    method InitializeHeap(heapAddress: nat, pageCount: nat, ghost tables: map<nat, Slot>)
      requires ptm.Valid() && pageCount > 0 && heapAddress + pageCount * MEM_FRAME_SIZE <= ADDRESS_SPACE
      requires Inv(ptm.State(), tables) && Apart(tables, ptm.pfa.Storage()) && hdrs == map[]
      requires EnoughForPages(ptm.State(), ptm.pfa.Storage(), heapAddress, pageCount)
      modifies this, ptm.ram, ptm.pfa, ptm.pfa.bitmap.buffer
      ensures ptm.Valid() && ptm.State() == MapFresh(old(ptm.State()), heapAddress, pageCount)
      ensures State() == FirstBlock(heapAddress, pageCount) && ptm.pfa.Storage() == old(ptm.pfa.Storage())
    {
      hide Inv, EnoughForPages, MapFresh, PageTableManager.State, PageTableManager.Valid;
      var pos := MapHeapPages(ptm, heapAddress, pageCount, tables);
      var heapLenght := pageCount * MEM_FRAME_SIZE;
      heapStart := heapAddress;
      heapEnd := heapAddress + heapLenght;
      hdrs := hdrs[heapAddress := Header(heapLenght - HEADER, NULL, NULL, true)];
      lastHdr := heapAddress;
    }

    method CombineForward(a: nat)
      modifies this
      ensures State() == HeapBlocks.CombineForward(old(State()), a)
    {
      var hshdr := Load(a);
      if hshdr.next == NULL {
        return;
      }
      if !hshdr.free {
        return;
      }
      if hshdr.next == lastHdr {
        lastHdr := a;
      }
      var next := Load(hshdr.next);
      if next.next != NULL {
        hdrs := hdrs[next.next := Load(next.next).(last := a)];
      }
      hdrs := hdrs[a := hshdr.(lenght := hshdr.lenght + next.lenght + HEADER, next := next.next)];
    }

    method CombineBackward(a: nat)
      modifies this
      ensures State() == HeapBlocks.CombineBackward(old(State()), a)
    {
      var last := Load(a).last;
      if last != NULL && Load(last).free {
        CombineForward(last);
      }
    }

    /** MEM_Free. */
    method Free(address: nat)
      requires address >= HEADER
      modifies this
      ensures State() == FreeBlock(old(State()), address - HEADER)
    {
      var segment := address - HEADER;
      hdrs := hdrs[segment := Load(segment).(free := true)];
      CombineForward(segment);
      CombineBackward(segment);
    }

    /** MEM_ExpandHeap. */
    method ExpandHeap(lenght: nat, ghost tables: map<nat, Slot>)
      requires ptm.Valid() && lenght > 0 && heapEnd + RoundUp(lenght, MEM_FRAME_SIZE) <= ADDRESS_SPACE
      requires lastHdr != heapEnd
      requires Inv(ptm.State(), tables) && Apart(tables, ptm.pfa.Storage())
      requires EnoughForPages(ptm.State(), ptm.pfa.Storage(), heapEnd, RoundUp(lenght, MEM_FRAME_SIZE) / MEM_FRAME_SIZE)
      modifies this, ptm.ram, ptm.pfa, ptm.pfa.bitmap.buffer
      ensures ptm.Valid()
      ensures ptm.State() == MapFresh(old(ptm.State()), old(heapEnd), RoundUp(lenght, MEM_FRAME_SIZE) / MEM_FRAME_SIZE)
      ensures State() == Expand(old(State()), lenght) && ptm.pfa.Storage() == old(ptm.pfa.Storage())
    {
      hide Inv, EnoughForPages, MapFresh, PageTableManager.State, PageTableManager.Valid, HeapBlocks.CombineBackward;
      var size := lenght;
      if size % MEM_FRAME_SIZE > 0 {
        size := size - size % MEM_FRAME_SIZE;
        size := size + MEM_FRAME_SIZE;
      }
      var pageCount := size / MEM_FRAME_SIZE;
      assert size == pageCount * MEM_FRAME_SIZE;
      var newSegment := heapEnd;
      heapEnd := MapHeapPages(ptm, heapEnd, pageCount, tables);
      hdrs := hdrs[lastHdr := Load(lastHdr).(next := newSegment)];
      hdrs := hdrs[newSegment := Header(size - HEADER, NULL, lastHdr, true)];
      lastHdr := newSegment;
      CombineBackward(newSegment);
    }

    /** The search loop of MEM_Malloc. */
    method FindFit(size: nat, ghost list: seq<nat>) returns (found: bool, seg: nat)
      requires Tiled(State(), list)
      ensures found ==> FirstFit(State(), list, size, seg)
      ensures !found ==> !Fits(State(), list, size)
    {
      seg := heapStart;
      ghost var k := 0;
      while true
        invariant 0 <= k < |list| && seg == list[k]
        invariant forall j :: 0 <= j < k ==> !FitsAt(State(), list, size, j)
        decreases |list| - k
      {
        assert BlockAt(State(), list, k);
        var current := Load(seg);
        if current.free {
          if current.lenght > size {
            assert FitsAt(State(), list, size, k);
            return true, seg;
          }
          if current.lenght == size {
            assert FitsAt(State(), list, size, k);
            return true, seg;
          }
        }
        if current.next == NULL {
          return false, seg;
        }
        seg := current.next;
        k := k + 1;
      }
    }

    /**
     * The search of MEM_Malloc for a rounded size: after a failed search the heap is
     * expanded and MEM_Malloc starts again with the same size, which is rounded already.
     * `turns` bounds the expansions.
     */
    method FindBlock(s: nat, ghost list: seq<nat>, ghost tables: map<nat, Slot>, ghost turns: nat)
      returns (seg: nat, ghost n: nat)
      requires ptm.Valid() && Inv(ptm.State(), tables) && Apart(tables, ptm.pfa.Storage()) && Tiled(State(), list)
      requires RoundedSize(s) == s && FitsWithin(State(), list, s, turns)
      requires RoomFor(ptm.State(), ptm.pfa.Storage(), heapEnd, s, turns)
      modifies this, ptm.ram, ptm.pfa, ptm.pfa.bitmap.buffer
      ensures ptm.Valid() && ptm.pfa.Storage() == old(ptm.pfa.Storage())
      ensures n <= turns && FoundAfter(old(State()), list, s, n, seg)
      ensures State() == ExpandTimes(old(State()), s, n)
      ensures ptm.State() == Grown(old(ptm.State()), old(heapEnd), s, n)
      decreases turns
    {
      hide Inv, EnoughForPages, MapFresh, PageTableManager.State, PageTableManager.Valid, Expand, Tiled;
      hide Fits, FirstFit, RoundUp, PagesFor, HeapMapped, Translate, Wrap, Apart, RoomFor;
      ghost var m, h, store := ptm.State(), State(), ptm.pfa.Storage();
      var found: bool;
      n := 0;
      found, seg := FindFit(s, list);
      if found {
        NoPages(m, h.end, s);
        return seg, 0;
      }
      RetryReady(h, list, m, store, s, turns);
      ghost var tables', frames := HeapGrows(m, tables, store, heapEnd, PagesFor(s));
      HeapInv(MapFresh(m, heapEnd, PagesFor(s)), tables', store, heapEnd, frames);
      EndMoves(h, list, s);
      ExpandHeap(s, tables);
      seg, n := FindBlock(s, ListAfterExpand(h, list), tables', turns - 1);
      MorePages(m, h.end, s, n);
      n := n + 1;
    }

    /** MEM_HeapSegHdrSplit.  Without a successor it writes to a header at address 0. */
    method Split(a: nat, splitLenght: nat) returns (newHdr: nat)
      modifies this
      ensures State() == SplitBlock(old(State()), a, splitLenght)
      ensures newHdr == if CanSplit(old(State()), a, splitLenght) then a + splitLenght + HEADER else NULL
    {
      var hshdr := Load(a);
      if splitLenght < 0x10 {
        return NULL;
      }
      var splitSeqLenght := hshdr.lenght - splitLenght - HEADER;
      if splitSeqLenght < 0x10 {
        return NULL;
      }
      var newSplitHdr := a + splitLenght + HEADER;
      hdrs := hdrs[hshdr.next := Load(hshdr.next).(last := newSplitHdr)];
      hdrs := hdrs[newSplitHdr := Header(splitLenght, hshdr.next, a, hshdr.free)];
      hdrs := hdrs[a := hshdr.(next := newSplitHdr, lenght := splitLenght)];
      if lastHdr == a {
        lastHdr := newSplitHdr;
      }
      return newSplitHdr;
    }

    /**
     * MEM_Malloc.  The heap is expanded as often as the search fails, at most twice.  For
     * the caller: null for the sizes 0 and above 2^64 - 16 and for no other; otherwise
     * the address of at least `size` bytes inside the heap, in a block that is in use and
     * off every block that was in use before.
     */
    method Malloc(size: Word, ghost list: seq<nat>, ghost tables: map<nat, Slot>)
      returns (address: nat, ghost n: nat, ghost seg: nat)
      requires ptm.Valid() && Inv(ptm.State(), tables) && Apart(tables, ptm.pfa.Storage()) && Tiled(State(), list)
      requires RoundedSize(size) > 0 ==> RoomFor(ptm.State(), ptm.pfa.Storage(), heapEnd, RoundedSize(size), 2)
      modifies this, ptm.ram, ptm.pfa, ptm.pfa.bitmap.buffer
      ensures ptm.Valid() && ptm.pfa.Storage() == old(ptm.pfa.Storage())
      ensures address == NULL <==> size == 0 || size > U64_LIMIT - 0x10
      ensures address == NULL ==> State() == old(State()) && ptm.State() == old(ptm.State())
      ensures address != NULL ==>
        && n <= 2 && FoundAfter(old(State()), list, RoundedSize(size), n, seg) && address == seg + HEADER
        && ptm.State() == Grown(old(ptm.State()), old(heapEnd), RoundedSize(size), n)
        && State() == TakeBlock(ExpandTimes(old(State()), RoundedSize(size), n), seg, RoundedSize(size))
      ensures address != NULL ==>
        && address >= heapStart + HEADER && seg in hdrs && !Load(seg).free
        && size <= Load(seg).lenght && address + Load(seg).lenght <= heapEnd
        && OffUsed(Occupied(old(State()), list), seg, Load(seg).lenght)
    {
      hide Inv, MapFresh, PageTableManager.State, PageTableManager.Valid, Expand, Tiled, RoomFor, Apart, Fits, PagesFor;
      hide ExpandTimes, ListTimes, FoundAfter, SplitBlock, Occupied, OffUsed, FitsAt;
      address, n, seg := NULL, 0, NULL;
      var s := size;
      if s % 0x10 > 0 {
        s := s - s % 0x10;
        s := Wrap(s + 0x10);
      }
      assert s == RoundedSize(size);
      RoundedMeaning(size);
      if s == 0 {
        return;
      }
      RoundedAgain(size);
      hide RoundedSize;
      FitsAfterTwo(State(), list, s);
      var block: nat;
      block, n := FindBlock(s, list, tables, 2);
      seg := block;
      ghost var k := FoundBlock(old(State()), list, s, n, block);
      TakenBlock(State(), ListTimes(old(State()), list, s, n), k, s);
      if Load(block).lenght > s {
        var _ := Split(block, s);
      }
      hdrs := hdrs[block := Load(block).(free := false)];
      address := block + HEADER;
    }
  }

  /** The search succeeds after so many expansions. */
  ghost predicate FitsWithin(h: Blocks, list: seq<nat>, s: nat, turns: nat) {
    s > 0 && Fits(ExpandTimes(h, s, turns), ListTimes(h, list, s, turns), s)
  }

  /** Memory and addresses for the expansions that the search may still make. */
  ghost predicate RoomFor(m: Machine, store: FrameRange, end: nat, s: nat, turns: nat) {
    && end + turns * PagesFor(s) * MEM_FRAME_SIZE <= ADDRESS_SPACE
    && EnoughForPages(m, store, end, turns * PagesFor(s))
  }

  /** After a failed search there is a turn left, and room for the turns after it. */
  lemma RetryReady(h: Blocks, list: seq<nat>, m: Machine, store: FrameRange, s: nat, turns: nat)
    requires s > 0 && Tiled(h, list) && RoomFor(m, store, h.end, s, turns) && !Fits(h, list, s)
    requires Fits(ExpandTimes(h, s, turns), ListTimes(h, list, s, turns), s)
    ensures turns > 0 && h.lastHdr != h.end && RoundUp(s, MEM_FRAME_SIZE) / MEM_FRAME_SIZE == PagesFor(s)
    ensures h.end + RoundUp(s, MEM_FRAME_SIZE) <= ADDRESS_SPACE
    ensures h.end + PagesFor(s) * MEM_FRAME_SIZE <= ADDRESS_SPACE && EnoughForPages(m, store, h.end, PagesFor(s))
    ensures Tiled(Expand(h, s), ListAfterExpand(h, list))
    ensures RoomFor(MapFresh(m, h.end, PagesFor(s)), store, Expand(h, s).end, s, turns - 1)
    ensures Fits(ExpandTimes(Expand(h, s), s, turns - 1), ListTimes(Expand(h, s), ListAfterExpand(h, list), s, turns - 1), s)
  {
    hide EnoughForPages, MapFresh, Expand, Fits, Tiled;
    var pages := PagesFor(s);
    WholePages(s);
    MoreTurns(turns, pages);
    EnoughTwice(m, store, h.end, pages, (turns - 1) * pages);
    ExpandTiled(h, list, s);
    LastBeforeEnd(h, list);
  }

  /** The machine after n expansions for a size. */
  ghost function Grown(m: Machine, end: nat, s: nat, n: nat): Machine {
    MapFresh(m, end, n * PagesFor(s))
  }

  lemma NoPages(m: Machine, end: nat, s: nat)
    ensures Grown(m, end, s, 0) == m
  {
  }

  lemma MorePages(m: Machine, end: nat, s: nat, n: nat)
    ensures Grown(MapFresh(m, end, PagesFor(s)), end + PagesFor(s) * MEM_FRAME_SIZE, s, n) == Grown(m, end, s, n + 1)
  {
    hide MapFresh, PagesFor;
    MoreTurns(n + 1, PagesFor(s));
    GrowTwice(m, end, PagesFor(s), n * PagesFor(s));
  }

  lemma EndMoves(h: Blocks, list: seq<nat>, s: nat)
    requires Tiled(h, list) && s > 0
    ensures Expand(h, s).end == h.end + PagesFor(s) * MEM_FRAME_SIZE
  {
    ExpandTiled(h, list, s);
    WholePages(s);
  }

  /** The size after MEM_Malloc has rounded it, in 64 bits: it may wrap to 0. */
  function RoundedSize(size: nat): nat {
    if size % 0x10 > 0 then Wrap(size - size % 0x10 + 0x10) else size
  }

  /**
   * The size asked for is rounded up to the next multiple of sixteen; for the last fifteen
   * sizes of 64 bits that is 0.
   */
  lemma RoundedMeaning(size: Word)
    ensures RoundedSize(size) % 0x10 == 0
    ensures size <= U64_LIMIT - 0x10 ==> size <= RoundedSize(size) < size + 0x10
    ensures RoundedSize(size) == 0 <==> size == 0 || size > U64_LIMIT - 0x10
  {
  }

  function PagesFor(size: nat): nat {
    RoundUp(size, MEM_FRAME_SIZE) / MEM_FRAME_SIZE
  }

  lemma RoundedAgain(size: nat)
    ensures RoundedSize(RoundedSize(size)) == RoundedSize(size)
  {
  }

  lemma WholePages(size: nat)
    ensures RoundUp(size, MEM_FRAME_SIZE) == PagesFor(size) * MEM_FRAME_SIZE
  {
  }

  lemma MoreTurns(turns: nat, pages: nat)
    requires turns > 0
    ensures turns * pages == pages + (turns - 1) * pages
  {
  }

  lemma LastBeforeEnd(h: Blocks, list: seq<nat>)
    requires Tiled(h, list)
    ensures h.lastHdr != h.end
  {
    BeforeEnd(h, list, |list| - 1);
  }
}

// The block list of the kernel heap (rizzos/src/memory/heap.c), as functions on the
// headers.  Heap.dfy carries the code and proves that it computes these functions.
module HeapBlocks {
  import opened Paging

  /** sizeof(HeapSegHdr) */
  const HEADER: nat := 32

  const NULL: nat := 0

  datatype Header = Header(lenght: nat, next: nat, last: nat, free: bool)

  /** The headers by address, and the three variables of the heap. */
  datatype Blocks = Blocks(hdrs: map<nat, Header>, start: nat, end: nat, lastHdr: nat) {
    /** The header stored at an address. */
    function At(a: nat): Header {
      if a in hdrs then hdrs[a] else Header(0, NULL, NULL, false)
    }
  }

  // ----- what the heap functions do

  /** MEM_HeapSegHdrCombineForward: the block takes in its successor. */
  function CombineForward(h: Blocks, a: nat): Blocks {
    var seg := h.At(a);
    var succ := h.At(seg.next);
    if seg.next == NULL || !seg.free then h
    else
      var hdrs := if succ.next != NULL then h.hdrs[succ.next := h.At(succ.next).(last := a)] else h.hdrs;
      Blocks(hdrs[a := seg.(lenght := seg.lenght + succ.lenght + HEADER, next := succ.next)],
             h.start, h.end, if seg.next == h.lastHdr then a else h.lastHdr)
  }

  /** MEM_HeapSegHdrCombineBackward. */
  function CombineBackward(h: Blocks, a: nat): Blocks {
    var prev := h.At(a).last;
    if prev != NULL && h.At(prev).free then CombineForward(h, prev) else h
  }

  function RoundUp(x: nat, unit: nat): (r: nat)
    requires unit > 0
    ensures r >= x
  {
    if x % unit > 0 then x - x % unit + unit else x
  }

  /** That is the next multiple. */
  lemma RoundedUp(x: nat)
    ensures var r := RoundUp(x, MEM_FRAME_SIZE); r % MEM_FRAME_SIZE == 0 && x <= r < x + MEM_FRAME_SIZE
  {
  }

  /** MEM_InitializeHeap, after the pages are mapped. */
  function FirstBlock(address: nat, pageCount: nat): Blocks
    requires pageCount > 0
  {
    Blocks(map[address := Header(pageCount * MEM_FRAME_SIZE - HEADER, NULL, NULL, true)],
           address, address + pageCount * MEM_FRAME_SIZE, address)
  }

  /** MEM_ExpandHeap, after the pages are mapped: a new last block, merged backward. */
  function Expand(h: Blocks, lenght: nat): Blocks
    requires lenght > 0
  {
    var size := RoundUp(lenght, MEM_FRAME_SIZE);
    var linked := h.hdrs[h.lastHdr := h.At(h.lastHdr).(next := h.end)];
    var added := linked[h.end := Header(size - HEADER, NULL, h.lastHdr, true)];
    CombineBackward(Blocks(added, h.start, h.end + size, h.end), h.end)
  }

  /** MEM_HeapSegHdrSplit finds room for a header and sixteen bytes behind so many. */
  predicate CanSplit(h: Blocks, a: nat, size: nat) {
    size >= 0x10 && h.At(a).lenght >= size + HEADER + 0x10
  }

  /**
   * MEM_HeapSegHdrSplit.  It does not ask whether there is a successor: without one it
   * stores the new `last` in a header at address 0, which no block list contains.
   */
  function SplitBlock(h: Blocks, a: nat, size: nat): Blocks {
    if !CanSplit(h, a, size) then h
    else
      var seg := h.At(a);
      var b := a + size + HEADER;
      var linked := h.hdrs[seg.next := h.At(seg.next).(last := b)];
      Blocks(linked[b := Header(size, seg.next, a, seg.free)][a := seg.(next := b, lenght := size)],
             h.start, h.end, if h.lastHdr == a then b else h.lastHdr)
  }

  // ----- the blocks tile the heap

  /** Block k of the list: its neighbours, and where it ends. */
  ghost predicate BlockAt(h: Blocks, list: seq<nat>, k: nat)
    requires k < |list|
  {
    && list[k] in h.hdrs && list[k] != NULL
    && h.At(list[k]).next == (if k + 1 < |list| then list[k + 1] else NULL)
    && h.At(list[k]).last == (if k > 0 then list[k - 1] else NULL)
    && list[k] + HEADER + h.At(list[k]).lenght == (if k + 1 < |list| then list[k + 1] else h.end)
  }

  /** Headers and segments, in list order, cover [start, end) without gap or overlap. */
  ghost predicate Tiled(h: Blocks, list: seq<nat>) {
    && |list| > 0 && list[0] == h.start && list[|list| - 1] == h.lastHdr
    && forall k :: 0 <= k < |list| ==> BlockAt(h, list, k)
  }

  /** Blocks come in ascending order and do not overlap. */
  lemma {:induction false} Ascending(h: Blocks, list: seq<nat>, j: nat, k: nat)
    requires Tiled(h, list) && j < k < |list|
    ensures list[j] + HEADER + h.At(list[j]).lenght <= list[k]
    decreases k - j
  {
    assert BlockAt(h, list, j);
    if j + 1 < k {
      Ascending(h, list, j + 1, k);
    }
  }

  lemma Distinct(h: Blocks, list: seq<nat>, j: nat, k: nat)
    requires Tiled(h, list) && j < |list| && k < |list| && j != k
    ensures list[j] != list[k]
  {
    if j < k {
      Ascending(h, list, j, k);
    } else {
      Ascending(h, list, k, j);
    }
  }

  lemma {:induction false} BeforeEnd(h: Blocks, list: seq<nat>, k: nat)
    requires Tiled(h, list) && k < |list|
    ensures list[k] + HEADER + h.At(list[k]).lenght <= h.end
    decreases |list| - k
  {
    assert BlockAt(h, list, k);
    if k + 1 < |list| {
      BeforeEnd(h, list, k + 1);
    }
  }

  lemma FirstBlockTiled(address: nat, pageCount: nat)
    requires address > 0 && pageCount > 0
    ensures Tiled(FirstBlock(address, pageCount), [address])
  {
  }

  /** Taking in the successor keeps the tiling: the list loses that one block. */
  lemma CombineForwardTiled(h: Blocks, list: seq<nat>, k: nat)
    requires Tiled(h, list) && k + 1 < |list| && h.At(list[k]).free
    ensures Tiled(CombineForward(h, list[k]), list[..k + 1] + list[k + 2..])
  {
    var h' := CombineForward(h, list[k]);
    var list' := list[..k + 1] + list[k + 2..];
    assert BlockAt(h, list, k) && BlockAt(h, list, k + 1);
    if k + 2 < |list| {
      assert BlockAt(h, list, k + 2);
      Distinct(h, list, k + 1, |list| - 1);
    }
    forall j | 0 <= j < |list'|
      ensures BlockAt(h', list', j)
    {
      var i := if j <= k then j else j + 1;
      assert list'[j] == list[i] && BlockAt(h, list, i);
      if i != k {
        Distinct(h, list, i, k);
      }
      if k + 2 < |list| && i != k + 2 {
        Distinct(h, list, i, k + 2);
      }
    }
  }

  // ----- blocks in use

  /** The address and length of every block in use. */
  ghost function Occupied(h: Blocks, list: seq<nat>): set<(nat, nat)> {
    set k | 0 <= k < |list| && !h.At(list[k]).free :: (list[k], h.At(list[k]).lenght)
  }

  /**
   * MEM_HeapSegHdrCombineForward does not look at the successor's free mark: the blocks
   * in use survive exactly when the successor is not one of them.
   */
  lemma CombineForwardOccupied(h: Blocks, list: seq<nat>, k: nat)
    requires Tiled(h, list) && k + 1 < |list| && h.At(list[k]).free
    ensures Occupied(CombineForward(h, list[k]), list[..k + 1] + list[k + 2..]) == Occupied(h, list)
      <==> h.At(list[k + 1]).free
  {
    var h' := CombineForward(h, list[k]);
    var list' := list[..k + 1] + list[k + 2..];
    assert BlockAt(h, list, k) && BlockAt(h, list, k + 1);
    forall j | 0 <= j < |list| && j != k + 1
      ensures h'.At(list[j]).free == h.At(list[j]).free && list[j] != list[k + 1]
      ensures j != k ==> h'.At(list[j]).lenght == h.At(list[j]).lenght
    {
      Distinct(h, list, j, k + 1);
      if j != k {
        Distinct(h, list, j, k);
      }
      assert BlockAt(h, list, j);
      if k + 2 < |list| {
        Distinct(h, list, k, k + 2);
      }
    }
    forall x | x in Occupied(h', list')
      ensures x in Occupied(h, list) && x.0 != list[k + 1]
    {
      var j :| 0 <= j < |list'| && !h'.At(list'[j]).free && x == (list'[j], h'.At(list'[j]).lenght);
      assert list'[j] == list[if j <= k then j else j + 1];
    }
    forall x | x in Occupied(h, list) && x.0 != list[k + 1]
      ensures x in Occupied(h', list')
    {
      var j :| 0 <= j < |list| && !h.At(list[j]).free && x == (list[j], h.At(list[j]).lenght);
      assert list[j] == list'[if j <= k then j else j - 1];
    }
    if h.At(list[k + 1]).free {
      forall x | x in Occupied(h, list)
        ensures x.0 != list[k + 1]
      {
      }
    } else {
      assert (list[k + 1], h.At(list[k + 1]).lenght) in Occupied(h, list);
    }
  }

  // ----- expansion

  /** The new last block before it is merged. */
  function Appended(h: Blocks, lenght: nat): Blocks
    requires lenght > 0
  {
    var size := RoundUp(lenght, MEM_FRAME_SIZE);
    var linked := h.hdrs[h.lastHdr := h.At(h.lastHdr).(next := h.end)];
    Blocks(linked[h.end := Header(size - HEADER, NULL, h.lastHdr, true)], h.start, h.end + size, h.end)
  }

  ghost function ListAfterExpand(h: Blocks, list: seq<nat>): seq<nat> {
    if h.At(h.lastHdr).free then list else list + [h.end]
  }

  lemma AppendedSame(h: Blocks, list: seq<nat>, lenght: nat, k: nat)
    requires Tiled(h, list) && lenght > 0 && k < |list|
    ensures list[k] < h.end && BlockAt(h, list, k)
    ensures var h1 := Appended(h, lenght);
      h1.At(list[k]) == if k == |list| - 1 then h.At(list[k]).(next := h.end) else h.At(list[k])
  {
    BeforeEnd(h, list, k);
    if k != |list| - 1 {
      Distinct(h, list, k, |list| - 1);
    }
    assert BlockAt(h, list, k);
  }

  lemma AppendedTiled(h: Blocks, list: seq<nat>, lenght: nat)
    requires Tiled(h, list) && lenght > 0
    ensures Tiled(Appended(h, lenght), list + [h.end])
  {
    AppendedSame(h, list, lenght, |list| - 1);
    forall k | 0 <= k < |list| + 1
      ensures BlockAt(Appended(h, lenght), list + [h.end], k)
    {
      if k < |list| {
        AppendedSame(h, list, lenght, k);
      }
    }
  }

  /** Expansion keeps the tiling: one block more, or the free last block grows. */
  lemma ExpandTiled(h: Blocks, list: seq<nat>, lenght: nat)
    requires Tiled(h, list) && lenght > 0
    ensures Tiled(Expand(h, lenght), ListAfterExpand(h, list))
    ensures Expand(h, lenght).end == h.end + RoundUp(lenght, MEM_FRAME_SIZE) && Expand(h, lenght).start == h.start
  {
    AppendedTiled(h, list, lenght);
    AppendedSame(h, list, lenght, |list| - 1);
    if h.At(h.lastHdr).free {
      CombineForwardTiled(Appended(h, lenght), list + [h.end], |list| - 1);
      assert (list + [h.end])[..|list|] + (list + [h.end])[|list| + 1..] == list;
    }
  }

  /** Expansion leaves every block in use where it is. */
  lemma ExpandOccupied(h: Blocks, list: seq<nat>, lenght: nat)
    requires Tiled(h, list) && lenght > 0
    ensures Occupied(Expand(h, lenght), ListAfterExpand(h, list)) == Occupied(h, list)
  {
    var h1 := Appended(h, lenght);
    AppendedTiled(h, list, lenght);
    forall k | 0 <= k < |list|
      ensures h1.At(list[k]).free == h.At(list[k]).free && h1.At(list[k]).lenght == h.At(list[k]).lenght
    {
      AppendedSame(h, list, lenght, k);
    }
    AppendedSame(h, list, lenght, |list| - 1);
    assert Occupied(h1, list + [h.end]) == Occupied(h, list) by {
      forall x | x in Occupied(h, list)
        ensures x in Occupied(h1, list + [h.end])
      {
        var j :| 0 <= j < |list| && !h.At(list[j]).free && x == (list[j], h.At(list[j]).lenght);
        assert (list + [h.end])[j] == list[j];
      }
    }
    if h.At(h.lastHdr).free {
      CombineForwardOccupied(h1, list + [h.end], |list| - 1);
      assert (list + [h.end])[..|list|] + (list + [h.end])[|list| + 1..] == list;
    }
  }

  // ----- the search

  ghost predicate FitsAt(h: Blocks, list: seq<nat>, size: nat, k: nat)
    requires k < |list|
  {
    h.At(list[k]).free && h.At(list[k]).lenght >= size
  }

  ghost predicate Fits(h: Blocks, list: seq<nat>, size: nat) {
    exists k :: 0 <= k < |list| && FitsAt(h, list, size, k)
  }

  lemma LastAfterExpand(h: Blocks, list: seq<nat>, lenght: nat)
    requires Tiled(h, list) && lenght > 0
    ensures var h' := Expand(h, lenght);
      var list' := ListAfterExpand(h, list);
      && h'.lastHdr == list'[|list'| - 1] && h'.At(h'.lastHdr).free
      && h'.At(h'.lastHdr).lenght == RoundUp(lenght, MEM_FRAME_SIZE)
          + (if h.At(h.lastHdr).free then h.At(h.lastHdr).lenght else 0) - (if h.At(h.lastHdr).free then 0 else HEADER)
      && forall k :: 0 <= k < |list'| - 1 ==> (
          && list'[k] == list[k]
          && h'.At(list[k]).free == h.At(list[k]).free && h'.At(list[k]).lenght == h.At(list[k]).lenght)
  {
    var n := |list| - 1;
    BeforeEnd(h, list, n);
    assert BlockAt(h, list, n);
    forall k | 0 <= k < |list|
      ensures list[k] < h.end && (k != n ==> list[k] != list[n])
    {
      BeforeEnd(h, list, k);
      if k != n {
        Distinct(h, list, k, n);
      }
    }
  }

  /**
   * When the search fails, one expansion is enough exactly when the last block is
   * free, or the new pages have room for the new header besides the request.
   */
  lemma OneExpansion(h: Blocks, list: seq<nat>, size: nat)
    requires Tiled(h, list) && size > 0 && !Fits(h, list, size)
    ensures Fits(Expand(h, size), ListAfterExpand(h, list), size)
      <==> h.At(h.lastHdr).free || 1 <= size % MEM_FRAME_SIZE <= MEM_FRAME_SIZE - HEADER
  {
    var h' := Expand(h, size);
    var list' := ListAfterExpand(h, list);
    LastAfterExpand(h, list, size);
    if h'.At(h'.lastHdr).lenght >= size {
      assert FitsAt(h', list', size, |list'| - 1);
    } else {
      forall k | 0 <= k < |list'|
        ensures !FitsAt(h', list', size, k)
      {
        if k < |list'| - 1 {
          assert !FitsAt(h, list, size, k);
        }
      }
    }
  }

  /** Two expansions are always enough, for every size. */
  lemma TwoExpansions(h: Blocks, list: seq<nat>, size: nat)
    requires Tiled(h, list) && size > 0
    ensures var h1, list1 := Expand(h, size), ListAfterExpand(h, list);
      Fits(Expand(h1, size), ListAfterExpand(h1, list1), size)
  {
    hide Expand;
    var h1, list1 := Expand(h, size), ListAfterExpand(h, list);
    ExpandTiled(h, list, size);
    LastAfterExpand(h, list, size);
    LastAfterExpand(h1, list1, size);
    var h2, list2 := Expand(h1, size), ListAfterExpand(h1, list1);
    assert FitsAt(h2, list2, size, |list2| - 1);
  }

  // ----- splitting

  /** On a fresh heap the only block has no successor, and every split writes through null. */
  lemma FirstSplitWritesThroughNull(address: nat, pageCount: nat, size: nat)
    requires address > 0 && pageCount > 0
    ensures NULL in SplitBlock(FirstBlock(address, pageCount), address, size).hdrs
      <==> 0x10 <= size <= pageCount * MEM_FRAME_SIZE - 2 * HEADER - 0x10
  {
  }

  /** The blocks of a heap that has been split. */
  function SplitList(list: seq<nat>, k: nat, size: nat): seq<nat>
    requires k < |list|
  {
    list[..k + 1] + [list[k] + size + HEADER] + list[k + 1..]
  }

  /** A list that tiles the split heap goes through the same blocks up to the split one. */
  lemma {:induction false} SplitChain(h: Blocks, list: seq<nat>, k: nat, size: nat, list': seq<nat>, j: nat)
    requires Tiled(h, list) && k < |list| && CanSplit(h, list[k], size)
    requires Tiled(SplitBlock(h, list[k], size), list') && j <= k
    ensures j < |list'| && list'[j] == list[j]
    decreases j
  {
    if j > 0 {
      var h' := SplitBlock(h, list[k], size);
      SplitChain(h, list, k, size, list', j - 1);
      assert BlockAt(h', list', j - 1);
      assert BlockAt(h, list, j - 1) && BlockAt(h, list, j) && BlockAt(h, list, k);
      Distinct(h, list, j - 1, k);
      if k + 1 < |list| {
        Distinct(h, list, j - 1, k + 1);
      }
      Ascending(h, list, j - 1, k);
    }
  }

  /**
   * The second half of a split gets the length asked for instead of what is left.  The
   * split heap is tiled by some list exactly when the two lengths are the same.
   */
  lemma SplitTiled(h: Blocks, list: seq<nat>, k: nat, size: nat)
    requires Tiled(h, list) && k < |list| && CanSplit(h, list[k], size)
    ensures (exists list' :: Tiled(SplitBlock(h, list[k], size), list'))
      <==> h.At(list[k]).lenght == 2 * size + HEADER
  {
    var h' := SplitBlock(h, list[k], size);
    assert BlockAt(h, list, k);
    if h.At(list[k]).lenght == 2 * size + HEADER {
      EvenSplitTiled(h, list, k, size);
    }
    if exists list' :: Tiled(h', list') {
      var list' :| Tiled(h', list');
      SplitChain(h, list, k, size, list', k);
      assert BlockAt(h', list', k);
      assert BlockAt(h', list', k + 1);
    }
  }

  lemma EvenSplitTiled(h: Blocks, list: seq<nat>, k: nat, size: nat)
    requires Tiled(h, list) && k < |list| && CanSplit(h, list[k], size)
    requires h.At(list[k]).lenght == 2 * size + HEADER
    ensures Tiled(SplitBlock(h, list[k], size), SplitList(list, k, size))
  {
    var b := list[k] + size + HEADER;
    var h' := SplitBlock(h, list[k], size);
    var list' := SplitList(list, k, size);
    assert BlockAt(h, list, k);
    if k + 1 < |list| {
      Distinct(h, list, k, |list| - 1);
    }
    forall j | 0 <= j < |list'|
      ensures BlockAt(h', list', j)
    {
      if j != k + 1 {
        var i := if j <= k then j else j - 1;
        assert list'[j] == list[i] && BlockAt(h, list, i);
        if i < k {
          Ascending(h, list, i, k);
          if k + 1 < |list| {
            Ascending(h, list, i, k + 1);
          }
        } else if i > k + 1 {
          Ascending(h, list, k, i);
          Ascending(h, list, k + 1, i);
        }
      }
    }
  }

  // ----- repeated expansion, as MEM_Malloc does it

  function ExpandTimes(h: Blocks, size: nat, n: nat): Blocks
    requires size > 0
    decreases n
  {
    if n == 0 then h else ExpandTimes(Expand(h, size), size, n - 1)
  }

  ghost function ListTimes(h: Blocks, list: seq<nat>, size: nat, n: nat): seq<nat>
    requires size > 0
    decreases n
  {
    if n == 0 then list else ListTimes(Expand(h, size), ListAfterExpand(h, list), size, n - 1)
  }

  /** Block a is the first in list order that is free and long enough. */
  ghost predicate FirstFit(h: Blocks, list: seq<nat>, size: nat, a: nat) {
    exists k :: 0 <= k < |list| && list[k] == a && FitsAt(h, list, size, k)
      && forall j :: 0 <= j < k ==> !FitsAt(h, list, size, j)
  }

  /** A search for the size succeeds after n expansions and not before, and finds a. */
  ghost predicate FoundAfter(h: Blocks, list: seq<nat>, size: nat, n: nat, a: nat)
    requires size > 0
    decreases n
  {
    if n == 0 then FirstFit(h, list, size, a)
    else !Fits(h, list, size) && FoundAfter(Expand(h, size), ListAfterExpand(h, list), size, n - 1, a)
  }

  /** Whatever the search wants, it finds it after two expansions at the latest. */
  lemma FitsAfterTwo(h: Blocks, list: seq<nat>, size: nat)
    requires Tiled(h, list) && size > 0
    ensures Fits(ExpandTimes(h, size, 2), ListTimes(h, list, size, 2), size)
  {
    hide Expand, ListAfterExpand, Fits;
    TwoExpansions(h, list, size);
    var h1, list1 := Expand(h, size), ListAfterExpand(h, list);
    assert ExpandTimes(h1, size, 1) == Expand(h1, size);
    assert ListTimes(h1, list1, size, 1) == ListAfterExpand(h1, list1);
  }

  // ----- taking a block

  function MarkUsed(h: Blocks, a: nat): Blocks {
    h.(hdrs := h.hdrs[a := h.At(a).(free := false)])
  }

  /** What MEM_Malloc does to the block it has found. */
  function TakeBlock(h: Blocks, a: nat, size: nat): Blocks {
    MarkUsed(if h.At(a).lenght > size then SplitBlock(h, a, size) else h, a)
  }

  /**
   * A block that is too short to be split is taken as it is: the tiling stays and
   * exactly this block joins the blocks in use.
   */
  lemma TakeBlockOccupied(h: Blocks, list: seq<nat>, k: nat, size: nat)
    requires Tiled(h, list) && k < |list| && FitsAt(h, list, size, k) && size >= 0x10
    requires h.At(list[k]).lenght < size + HEADER + 0x10
    ensures var h' := TakeBlock(h, list[k], size);
      && h' == MarkUsed(h, list[k]) && Tiled(h', list)
      && Occupied(h', list) == Occupied(h, list) + {(list[k], h.At(list[k]).lenght)}
  {
    var h' := MarkUsed(h, list[k]);
    forall j | 0 <= j < |list|
      ensures BlockAt(h', list, j) && h'.At(list[j]).lenght == h.At(list[j]).lenght
      ensures h'.At(list[j]).free == (j != k && h.At(list[j]).free)
    {
      assert BlockAt(h, list, j);
      if j != k {
        Distinct(h, list, j, k);
      }
    }
    forall x | x in Occupied(h, list)
      ensures x in Occupied(h', list)
    {
      var j :| 0 <= j < |list| && !h.At(list[j]).free && x == (list[j], h.At(list[j]).lenght);
      assert !h'.At(list[j]).free && x == (list[j], h'.At(list[j]).lenght);
    }
    assert (list[k], h'.At(list[k]).lenght) in Occupied(h', list);
    forall x | x in Occupied(h', list)
      ensures x in Occupied(h, list) || x == (list[k], h.At(list[k]).lenght)
    {
      var j :| 0 <= j < |list| && !h'.At(list[j]).free && x == (list[j], h'.At(list[j]).lenght);
      if j != k {
        assert !h.At(list[j]).free && x == (list[j], h.At(list[j]).lenght);
      }
    }
  }

  /**
   * The first allocation on a fresh heap that leaves room: two blocks as long as asked
   * for, the first in use, cover the heap from its start on.  What is left behind them is
   * in no block; when more than half is asked for, the second reaches past the end.
   */
  lemma FirstAllocation(address: nat, pageCount: nat, size: nat)
    requires address > 0 && pageCount > 0 && 0x10 <= size <= pageCount * MEM_FRAME_SIZE - 2 * HEADER - 0x10
    ensures var h := TakeBlock(FirstBlock(address, pageCount), address, size);
      var list := [address, address + HEADER + size];
      && Tiled(h.(end := address + 2 * (HEADER + size)), list) && Occupied(h, list) == {(address, size)}
      && h.end == address + pageCount * MEM_FRAME_SIZE
      && ((exists list' :: Tiled(h, list')) <==> h.end == address + 2 * (HEADER + size))
  {
    var first := FirstBlock(address, pageCount);
    var h := TakeBlock(first, address, size);
    var list := [address, address + HEADER + size];
    FirstBlockTiled(address, pageCount);
    var split := SplitBlock(first, address, size);
    SplitTiled(first, [address], 0, size);
    assert !h.At(list[0]).free && h.At(list[1]).free && (list[0], h.At(list[0]).lenght) == (address, size);
    MarkedTiled(split, address);
  }

  /** Marking a block used changes no tiling. */
  lemma MarkedTiled(h: Blocks, a: nat)
    requires a in h.hdrs
    ensures forall list :: Tiled(MarkUsed(h, a), list) <==> Tiled(h, list)
  {
    forall list
      ensures Tiled(MarkUsed(h, a), list) <==> Tiled(h, list)
    {
      assert forall k :: 0 <= k < |list| ==> (BlockAt(MarkUsed(h, a), list, k) <==> BlockAt(h, list, k));
    }
  }

  /** The bytes of a block in use and of one more segment do not overlap. */
  ghost predicate OffUsed(used: set<(nat, nat)>, segment: nat, lenght: nat) {
    forall x <- used :: x.0 + HEADER + x.1 <= segment || segment + HEADER + lenght <= x.0
  }

  /** What the search finds: a free block that is long enough, with the blocks in use as they were. */
  lemma {:induction false} FoundBlock(h: Blocks, list: seq<nat>, size: nat, n: nat, a: nat) returns (k: nat)
    requires Tiled(h, list) && size > 0 && FoundAfter(h, list, size, n, a)
    ensures var h', list' := ExpandTimes(h, size, n), ListTimes(h, list, size, n);
      && Tiled(h', list') && k < |list'| && list'[k] == a && FitsAt(h', list', size, k)
      && Occupied(h', list') == Occupied(h, list) && h'.start == h.start
    decreases n
  {
    hide Expand, ListAfterExpand, Tiled, Occupied, FitsAt, Fits;
    if n == 0 {
      k :| 0 <= k < |list| && list[k] == a && FitsAt(h, list, size, k);
    } else {
      ExpandTiled(h, list, size);
      ExpandOccupied(h, list, size);
      k := FoundBlock(Expand(h, size), ListAfterExpand(h, list), size, n - 1, a);
    }
  }

  /**
   * Taking a block that fits gives a block in use of at least the size, inside the heap
   * and off every block that was in use before.
   */
  lemma TakenBlock(h: Blocks, list: seq<nat>, k: nat, size: nat)
    requires Tiled(h, list) && k < |list| && FitsAt(h, list, size, k)
    ensures var h' := TakeBlock(h, list[k], size);
      && list[k] in h'.hdrs && !h'.At(list[k]).free && h'.At(list[k]).lenght >= size
      && h.start <= list[k] && list[k] + HEADER + h'.At(list[k]).lenght <= h.end
      && OffUsed(Occupied(h, list), list[k], h'.At(list[k]).lenght) && h'.end == h.end && h'.start == h.start
  {
    var h' := TakeBlock(h, list[k], size);
    BeforeEnd(h, list, k);
    assert BlockAt(h, list, k);
    assert h'.At(list[k]).lenght <= h.At(list[k]).lenght;
    if k > 0 {
      Ascending(h, list, 0, k);
    }
    forall x | x in Occupied(h, list)
      ensures x.0 + HEADER + x.1 <= list[k] || list[k] + HEADER + h'.At(list[k]).lenght <= x.0
    {
      var j :| 0 <= j < |list| && !h.At(list[j]).free && x == (list[j], h.At(list[j]).lenght);
      if j < k {
        Ascending(h, list, j, k);
      } else {
        Ascending(h, list, k, j);
      }
    }
  }

  // ----- giving a block back

  function MarkFree(h: Blocks, a: nat): Blocks {
    h.(hdrs := h.hdrs[a := h.At(a).(free := true)])
  }

  /** MEM_Free for the block whose header is at a. */
  function FreeBlock(h: Blocks, a: nat): Blocks {
    CombineBackward(CombineForward(MarkFree(h, a), a), a)
  }

  function Without(list: seq<nat>, k: nat): seq<nat>
    requires k < |list|
  {
    list[..k] + list[k + 1..]
  }

  /** The list after the block has taken in its successor, if there is one. */
  function AfterForward(list: seq<nat>, k: nat): (l: seq<nat>)
    requires k < |list|
    ensures k < |l| && l[..k + 1] == list[..k + 1]
  {
    if k + 1 < |list| then Without(list, k + 1) else list
  }

  function AfterFree(h: Blocks, list: seq<nat>, k: nat): seq<nat>
    requires k < |list|
  {
    if k > 0 && h.At(list[k - 1]).free then Without(AfterForward(list, k), k) else AfterForward(list, k)
  }

  lemma MarkFreeTiled(h: Blocks, list: seq<nat>, k: nat)
    requires Tiled(h, list) && k < |list|
    ensures Tiled(MarkFree(h, list[k]), list)
    ensures Occupied(MarkFree(h, list[k]), list) == Occupied(h, list) - {(list[k], h.At(list[k]).lenght)}
  {
    var h' := MarkFree(h, list[k]);
    forall j | 0 <= j < |list|
      ensures BlockAt(h', list, j) && (j != k ==> list[j] != list[k] && h'.At(list[j]) == h.At(list[j]))
    {
      assert BlockAt(h, list, j);
      if j != k {
        Distinct(h, list, j, k);
      }
    }
    forall x | x in Occupied(h, list) && x.0 != list[k]
      ensures x in Occupied(h', list)
    {
      var j :| 0 <= j < |list| && !h.At(list[j]).free && x == (list[j], h.At(list[j]).lenght);
      assert !h'.At(list[j]).free;
    }
    forall x | x in Occupied(h', list)
      ensures x in Occupied(h, list) && x.0 != list[k]
    {
      var j :| 0 <= j < |list| && !h'.At(list[j]).free && x == (list[j], h'.At(list[j]).lenght);
      assert !h.At(list[j]).free;
    }
  }

  /** The block and its successor, which is taken in whether or not it is in use. */
  lemma ForwardOfFree(h: Blocks, list: seq<nat>, k: nat)
    requires Tiled(h, list) && k < |list| && h.At(list[k]).free
    ensures Tiled(CombineForward(h, list[k]), AfterForward(list, k))
    ensures CombineForward(h, list[k]).At(list[k]).free
    ensures k > 0 ==> CombineForward(h, list[k]).At(list[k - 1]) == h.At(list[k - 1])
    ensures Occupied(CombineForward(h, list[k]), AfterForward(list, k)) == Occupied(h, list)
      <==> k + 1 == |list| || h.At(list[k + 1]).free
  {
    assert BlockAt(h, list, k);
    if k + 1 < |list| {
      CombineForwardTiled(h, list, k);
      CombineForwardOccupied(h, list, k);
      assert BlockAt(h, list, k + 1);
      if k > 0 {
        Distinct(h, list, k - 1, k);
        if k + 2 < |list| {
          Distinct(h, list, k - 1, k + 2);
        }
      }
      if k + 2 < |list| {
        Distinct(h, list, k, k + 2);
      }
    }
  }

  /** Giving a block back keeps the tiling. */
  lemma FreeTiled(h: Blocks, list: seq<nat>, k: nat)
    requires Tiled(h, list) && k < |list|
    ensures Tiled(FreeBlock(h, list[k]), AfterFree(h, list, k))
  {
    var a := list[k];
    MarkFreeTiled(h, list, k);
    ForwardOfFree(MarkFree(h, a), list, k);
    var h2, list2 := CombineForward(MarkFree(h, a), a), AfterForward(list, k);
    assert BlockAt(h2, list2, k) && list2[k] == a;
    if k > 0 {
      assert list2[k - 1] == list[k - 1];
      Distinct(h, list, k - 1, k);
      assert h2.At(list[k - 1]) == h.At(list[k - 1]);
      assert BlockAt(h, list, k - 1);
      if h.At(list[k - 1]).free {
        ForwardOfFree(h2, list2, k - 1);
      }
    }
  }

  /**
   * Giving a block back takes exactly this block from those in use if and only if the
   * block behind it is free, or it is the last one; otherwise its neighbour is lost.
   */
  lemma FreeOccupied(h: Blocks, list: seq<nat>, k: nat)
    requires Tiled(h, list) && k < |list|
    ensures Occupied(FreeBlock(h, list[k]), AfterFree(h, list, k)) == Occupied(h, list) - {(list[k], h.At(list[k]).lenght)}
      <==> k + 1 == |list| || h.At(list[k + 1]).free
  {
    var a := list[k];
    MarkFreeTiled(h, list, k);
    ForwardOfFree(MarkFree(h, a), list, k);
    var h2, list2 := CombineForward(MarkFree(h, a), a), AfterForward(list, k);
    assert BlockAt(h2, list2, k) && list2[k] == a;
    if k + 1 < |list| {
      Distinct(h, list, k, k + 1);
    }
    if k > 0 {
      assert list2[k - 1] == list[k - 1];
      Distinct(h, list, k - 1, k);
      assert h2.At(list[k - 1]) == h.At(list[k - 1]);
      assert BlockAt(h, list, k - 1);
      if h.At(list[k - 1]).free {
        ForwardOfFree(h2, list2, k - 1);
      }
    }
  }

  // ----- two heaps on which the code goes wrong

  /** A free block followed by one in use. */
  function FreeThenUsed(): Blocks {
    Blocks(map[0x1000 := Header(0x100, 0x1120, NULL, true), 0x1120 := Header(0x40, NULL, 0x1000, false)],
           0x1000, 0x1180, 0x1120)
  }

  lemma FreeThenUsedTiled()
    ensures Tiled(FreeThenUsed(), [0x1000, 0x1120])
  {
    var h, list := FreeThenUsed(), [0x1000, 0x1120];
    assert BlockAt(h, list, 0) && BlockAt(h, list, 1);
  }

  /** Merging swallows the block in use. */
  lemma UsedBlockSwallowed()
    ensures (0x1120, 0x40) in Occupied(FreeThenUsed(), [0x1000, 0x1120])
    ensures Tiled(CombineForward(FreeThenUsed(), 0x1000), [0x1000])
    ensures Occupied(CombineForward(FreeThenUsed(), 0x1000), [0x1000]) == {}
  {
    FreeThenUsedTiled();
    var h, list := FreeThenUsed(), [0x1000, 0x1120];
    assert !h.At(list[1]).free && (list[1], h.At(list[1]).lenght) == (0x1120, 0x40);
    CombineForwardTiled(h, list, 0);
    assert list[..1] + list[2..] == [0x1000];
    assert CombineForward(h, 0x1000).At(0x1000).free;
  }

  /** Giving back the first of two blocks in use loses the second. */
  lemma FreeLosesNeighbour()
    ensures var h, list := MarkUsed(FreeThenUsed(), 0x1000), [0x1000, 0x1120];
      Tiled(h, list) && (0x1120, 0x40) in Occupied(h, list)
      && Occupied(FreeBlock(h, 0x1000), AfterFree(h, list, 0)) == {}
  {
    FreeThenUsedTiled();
    var h, list := MarkUsed(FreeThenUsed(), 0x1000), [0x1000, 0x1120];
    MarkedTiled(FreeThenUsed(), 0x1000);
    assert !h.At(list[1]).free && (list[1], h.At(list[1]).lenght) == (0x1120, 0x40);
    assert AfterFree(h, list, 0) == [0x1000];
    assert FreeBlock(h, 0x1000).At(0x1000).free;
  }

  /** Splitting off 16 bytes loses the rest: no list of blocks covers the heap any more. */
  lemma SplitLosesTheRest()
    ensures CanSplit(FreeThenUsed(), 0x1000, 0x10)
    ensures !exists list :: Tiled(SplitBlock(FreeThenUsed(), 0x1000, 0x10), list)
  {
    FreeThenUsedTiled();
    SplitTiled(FreeThenUsed(), [0x1000, 0x1120], 0, 0x10);
  }
}

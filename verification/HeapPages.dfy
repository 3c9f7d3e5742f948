// The pages under the kernel heap (rizzos/src/memory/heap.c:12-22, 72-77): each page
// gets a frame of its own, which is neither a page table nor part of the bit set.
module HeapPages {
  import opened Options
  import opened Bits
  import opened Paging
  import opened PageFrames
  import opened PageTables
  import opened Storages
  import opened MapPages
  import opened AddressSpaces
  import opened IdentityMaps

  /** PTM_MapMemory(v, PFA_RequestPage()). */
  function MapFreshPage(m: Machine, v: nat): (r: Machine)
    requires m.frames.hint <= |m.frames.bits|
    ensures |r.ram| == |m.ram|
  {
    var request := RequestFrame(m.frames);
    MapMemory(m.(frames := request.0), v, Wrap(request.1))
  }

  /** The frame that the next request returns. */
  function FreshFrame(m: Machine): nat
    requires m.frames.hint <= |m.frames.bits|
  {
    RequestFrame(m.frames).1 / MEM_FRAME_SIZE
  }

  /** There are frames for the page and for the tables it lacks, and they are not on the bit set. */
  ghost predicate EnoughForPage(m: Machine, store: FrameRange, v: nat) {
    && m.frames.hint <= |m.frames.bits|
    && CountClear(m.frames.bits) >= 1 + Missing(m, Indices(v))
    && Spared(m.frames.bits, store, 1 + Missing(m, Indices(v)))
  }

  /** n pages from an address on, each mapped to a fresh frame. */
  ghost function MapFresh(m: Machine, start: nat, n: nat): Machine {
    if n == 0 then m
    else
      var before := MapFresh(m, start, n - 1);
      if before.frames.hint <= |before.frames.bits|
      then MapFreshPage(before, start + (n - 1) * MEM_FRAME_SIZE) else before
  }

  ghost predicate EnoughForPages(m: Machine, store: FrameRange, start: nat, n: nat) {
    n == 0 || (EnoughForPages(m, store, start, n - 1) &&
      EnoughForPage(MapFresh(m, start, n - 1), store, start + (n - 1) * MEM_FRAME_SIZE))
  }

  /** Growing by a pages and then by b pages is growing by a + b pages. */
  lemma {:induction false} GrowTwice(m: Machine, start: nat, a: nat, b: nat)
    ensures MapFresh(MapFresh(m, start, a), start + a * MEM_FRAME_SIZE, b) == MapFresh(m, start, a + b)
    decreases b
  {
    hide MapFreshPage;
    if b > 0 {
      GrowTwice(m, start, a, b - 1);
    }
  }

  lemma {:induction false} EnoughTwice(m: Machine, store: FrameRange, start: nat, a: nat, b: nat)
    requires EnoughForPages(m, store, start, a + b)
    ensures EnoughForPages(m, store, start, a)
    ensures EnoughForPages(MapFresh(m, start, a), store, start + a * MEM_FRAME_SIZE, b)
    decreases b
  {
    hide EnoughForPage, MapFresh;
    if b > 0 {
      EnoughTwice(m, store, start, a, b - 1);
      GrowTwice(m, start, a, b - 1);
    }
  }

  /**
   * The heap's pages: page k goes to frames[k]; frames are distinct, taken, no tables and
   * off a range `store`, which stands for the frames of the bit set or, with PastMemory,
   * for those past the end of memory.
   */
  ghost predicate HeapMapped(m: Machine, tables: map<nat, Slot>, store: FrameRange, start: nat, frames: seq<nat>) {
    && Inv(m, tables) && Apart(tables, store)
    && (forall k :: 0 <= k < |frames| ==>
          Translate(m, Indices(start + k * MEM_FRAME_SIZE)) == Some(Page(frames[k], true)))
    && (forall k :: 0 <= k < |frames| ==> frames[k] < |m.frames.bits| && m.frames.bits[frames[k]])
    && (forall k :: 0 <= k < |frames| ==> frames[k] !in tables && !store.Has(frames[k]))
    && (forall j, k :: 0 <= j < k < |frames| ==> frames[j] != frames[k])
  }

  /** The request before a heap page: a frame that was clear, and nothing mapped yet. */
  lemma RequestKeeps(m: Machine, tables: map<nat, Slot>, store: FrameRange, v: nat)
    requires Inv(m, tables) && Apart(tables, store) && EnoughForPage(m, store, v)
    ensures var r := RequestFrame(m.frames);
      var m1 := m.(frames := r.0);
      var c := FreshFrame(m);
      && c < |m.frames.bits| && !m.frames.bits[c] && (forall j :: 0 <= j < c ==> m.frames.bits[j])
      && r.0.bits == m.frames.bits[c := true]
      && r.1 == c * MEM_FRAME_SIZE && Wrap(r.1) == r.1
      && Inv(m1, tables) && c !in tables && !store.Has(c)
      && Ready(m1, store, Indices(v))
  {
    assert forall f :: f in tables ==> f < |m.ram|;
    hide Tree, Reach, CountSet, Indices, Wrap, Spared, ClearBelow, Lowest;
    NotFull(m.frames.bits);
    var c := FirstClear(m.frames.bits, m.frames.hint);
    assert c < |m.frames.bits|;
    assert c * MEM_FRAME_SIZE / MEM_FRAME_SIZE == c;
    CountAfterWrite(m.frames.bits, c, true);
    WrapFits(c * MEM_FRAME_SIZE);
    assert HintSound(RequestFrame(m.frames).0);
    LowestFirst(m.frames.bits, c);
    SparedFirst(m.frames.bits, store, 1 + Missing(m, Indices(v)), c);
    SparedLater(m.frames.bits, m.frames.bits[c := true], store, 1, Missing(m, Indices(v)));
  }

  ghost function FreshTables(m: Machine, tables: map<nat, Slot>, v: nat): map<nat, Slot>
    requires m.frames.hint <= |m.frames.bits|
  {
    MapTables(m.(frames := RequestFrame(m.frames).0), tables, Indices(v))
  }

  lemma FreshPageTranslates(m: Machine, tables: map<nat, Slot>, store: FrameRange, v: nat)
    requires Inv(m, tables) && Apart(tables, store) && EnoughForPage(m, store, v)
    ensures var m' := MapFreshPage(m, v);
      && Inv(m', FreshTables(m, tables, v))
      && Translate(m', Indices(v)) == Some(Page(FreshFrame(m), true))
      && forall w: nat :: PageNumber(w) != PageNumber(v) ==> Translate(m', Indices(w)) == Translate(m, Indices(w))
  {
    hide Inv, Translate, Indices, PageNumber, MapMemory, MapTables, Missing, CountClear, EnoughForPage, RequestFrame;
    HintOfPage(m, store, v);
    RequestKeeps(m, tables, store, v);
    var c := FreshFrame(m);
    MapMemoryCorrect(m.(frames := RequestFrame(m.frames).0), tables, v, c * MEM_FRAME_SIZE);
    SameFramesTranslate(m, RequestFrame(m.frames).0);
    FrameBound(m, tables);
    assert c * MEM_FRAME_SIZE / MEM_FRAME_SIZE % FRAME_LIMIT == c;
  }

  /** The fresh frame is no table, and frames that were taken stay so. */
  lemma FreshPageGrows(m: Machine, tables: map<nat, Slot>, store: FrameRange, v: nat)
    requires Inv(m, tables) && Apart(tables, store) && EnoughForPage(m, store, v)
    ensures var m' := MapFreshPage(m, v);
      var t' := FreshTables(m, tables, v);
      var c := FreshFrame(m);
      && |m'.frames.bits| == |m.frames.bits| && c < |m.frames.bits| && !m.frames.bits[c]
      && m'.frames.bits[c] && c !in t' && !store.Has(c) && Apart(t', store)
      && forall f :: 0 <= f < |m.frames.bits| && m.frames.bits[f] ==>
        m'.frames.bits[f] && (f !in tables ==> f !in t')
  {
    hide Inv, Indices, MapPage, MapTables, Missing, CountClear, EnoughForPage, RequestFrame, LeafEntry, Reach, Link;
    hide Spared, Apart, Lowest;
    HintOfPage(m, store, v);
    RequestKeeps(m, tables, store, v);
    var c := FreshFrame(m);
    assert c * MEM_FRAME_SIZE / MEM_FRAME_SIZE == c;
    var m1 := m.(frames := RequestFrame(m.frames).0);
    MapPageKeeps(m1, tables, Indices(v), c);
    ApartMeaning(m1, tables, MapPage(m1, Indices(v), c), MapTables(m1, tables, Indices(v)), Missing(m1, Indices(v)), store);
  }

  /**
   * A further page and its tables keep off any range of frames exactly when as many
   * requests as the page makes pass the range by.
   */
  lemma FreshPageApart(m: Machine, tables: map<nat, Slot>, store: FrameRange, v: nat)
    requires Inv(m, tables) && Apart(tables, store) && EnoughForPage(m, FrameRange(0, 0), v)
    ensures Apart(FreshTables(m, tables, v), store) && !store.Has(FreshFrame(m))
      <==> Spared(m.frames.bits, store, 1 + Missing(m, Indices(v)))
  {
    hide Inv, Indices, MapPage, MapTables, Missing, CountClear, EnoughForPage, RequestFrame, LeafEntry, Reach, Link;
    hide Spared, Apart, Lowest, Grows, FreshFrame, Wrap;
    HintOfPage(m, FrameRange(0, 0), v);
    NoneInEmptyRange(tables);
    RequestKeeps(m, tables, FrameRange(0, 0), v);
    var c, n := FreshFrame(m), Missing(m, Indices(v));
    var m1 := m.(frames := RequestFrame(m.frames).0);
    MapPageKeeps(m1, tables, Indices(v), c);
    var m2, t2 := MapPage(m1, Indices(v), c), MapTables(m1, tables, Indices(v));
    SameMissing(m, RequestFrame(m.frames).0, Indices(v));
    ApartMeaning(m1, tables, m2, t2, n, store);
    SparedAfterFirst(m.frames.bits, store, c, n);
  }

  lemma SameMissing(m: Machine, frames: Frames, p: PagePath)
    ensures Missing(m.(frames := frames), p) == Missing(m, p)
  {
  }

  lemma NoneInEmptyRange(tables: map<nat, Slot>)
    ensures Apart(tables, FrameRange(0, 0))
  {
  }

  lemma FrameBound(m: Machine, tables: map<nat, Slot>)
    requires Inv(m, tables)
    ensures |m.frames.bits| <= FRAME_LIMIT && |m.ram| == |m.frames.bits|
  {
  }

  lemma SameFramesTranslate(m: Machine, frames: Frames)
    ensures forall q: PagePath :: Translate(m.(frames := frames), q) == Translate(m, q)
  {
  }

  lemma HeapInv(m: Machine, tables: map<nat, Slot>, store: FrameRange, start: nat, frames: seq<nat>)
    requires HeapMapped(m, tables, store, start, frames)
    ensures Inv(m, tables) && Apart(tables, store)
  {
  }

  /** One more heap page. */
  lemma MapFreshPageKeeps(m: Machine, tables: map<nat, Slot>, store: FrameRange, start: nat, frames: seq<nat>)
    requires HeapMapped(m, tables, store, start, frames)
    requires start + (|frames| + 1) * MEM_FRAME_SIZE <= ADDRESS_SPACE
    requires EnoughForPage(m, store, start + |frames| * MEM_FRAME_SIZE)
    ensures var v := start + |frames| * MEM_FRAME_SIZE;
      HeapMapped(MapFreshPage(m, v), FreshTables(m, tables, v), store, start, frames + [FreshFrame(m)])
  {
    var n := |frames|;
    var v := start + n * MEM_FRAME_SIZE;
    hide Inv, Translate, Indices, PageNumber, MapFreshPage, FreshTables, FreshFrame, EnoughForPage, Apart;
    HintOfPage(m, store, v);
    FreshPageTranslates(m, tables, store, v);
    FreshPageGrows(m, tables, store, v);
    PageOf(start, n);
    forall k | 0 <= k < n
      ensures Translate(MapFreshPage(m, v), Indices(start + k * MEM_FRAME_SIZE)) == Some(Page(frames[k], true))
    {
      PageOf(start, k);
    }
  }

  /**
   * However often the heap has grown, each of its pages is mapped and writable, to a
   * frame of its own that is taken, no page table and not on the bit set; other pages
   * are untouched.
   */
  lemma {:induction false} HeapGrows(m: Machine, tables: map<nat, Slot>, store: FrameRange, start: nat, n: nat)
    returns (tables': map<nat, Slot>, frames: seq<nat>)
    requires Inv(m, tables) && Apart(tables, store) && EnoughForPages(m, store, start, n)
    requires start + n * MEM_FRAME_SIZE <= ADDRESS_SPACE
    ensures |frames| == n && HeapMapped(MapFresh(m, start, n), tables', store, start, frames)
    ensures forall w: nat :: !InPages(PageNumber(w), start, n) ==>
      Translate(MapFresh(m, start, n), Indices(w)) == Translate(m, Indices(w))
    decreases n
  {
    hide Inv, Translate, Indices, PageNumber, MapFreshPage, FreshTables, FreshFrame, EnoughForPage, MapTables, Apart;
    if n == 0 {
      tables', frames := tables, [];
    } else {
      tables', frames := HeapGrows(m, tables, store, start, n - 1);
      var before := MapFresh(m, start, n - 1);
      var v := start + (n - 1) * MEM_FRAME_SIZE;
      HintOfPage(before, store, v);
      HeapInv(before, tables', store, start, frames);
      MapFreshPageKeeps(before, tables', store, start, frames);
      FreshPageTranslates(before, tables', store, v);
      PageOf(start, n - 1);
      tables', frames := FreshTables(before, tables', v), frames + [FreshFrame(before)];
    }
  }

  /** With enough clear frames of memory no page of the heap and no table lies past its end. */
  lemma HeapInMemory(m: Machine, tables: map<nat, Slot>, total: nat, start: nat, n: nat)
    returns (tables': map<nat, Slot>, frames: seq<nat>)
    requires Inv(m, tables) && Apart(tables, PastMemory(total)) && EnoughForPages(m, PastMemory(total), start, n)
    requires start + n * MEM_FRAME_SIZE <= ADDRESS_SPACE
    ensures |frames| == n && HeapMapped(MapFresh(m, start, n), tables', PastMemory(total), start, frames)
    ensures (forall f <- frames :: f <= total / MEM_FRAME_SIZE) && forall f <- tables' :: f <= total / MEM_FRAME_SIZE
  {
    hide HintSound, Reach, TreeDown, NoLargePages, Translate, Indices, EnoughForPages, MapFresh;
    tables', frames := HeapGrows(m, tables, PastMemory(total), start, n);
    assert forall f :: f in tables' ==> f < FRAME_LIMIT;
  }

  lemma HintOfPage(m: Machine, store: FrameRange, v: nat)
    requires EnoughForPage(m, store, v)
    ensures m.frames.hint <= |m.frames.bits|
  {
  }
}

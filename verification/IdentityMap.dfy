// The loops of InitializeMemory that map memory to itself (rizzos/src/kernel.c:38-52).
module IdentityMaps {
  import opened Options
  import opened Bits
  import opened Paging
  import opened PageFrames
  import opened PageTables
  import opened Storages
  import opened MapPages
  import opened AddressSpaces

  const ADDRESS_SPACE: nat := 0x1_0000_0000_0000

  /** Mapping n pages to themselves, from an address on. */
  function MapIdentity(m: Machine, start: nat, n: nat): Machine
    requires start + n * MEM_FRAME_SIZE <= U64_LIMIT
  {
    if n == 0 then m
    else MapMemory(MapIdentity(m, start, n - 1), start + (n - 1) * MEM_FRAME_SIZE, start + (n - 1) * MEM_FRAME_SIZE)
  }

  ghost function IdentityTables(m: Machine, tables: map<nat, Slot>, start: nat, n: nat): map<nat, Slot>
    requires start + n * MEM_FRAME_SIZE <= U64_LIMIT
  {
    if n == 0 then tables
    else MapTables(MapIdentity(m, start, n - 1), IdentityTables(m, tables, start, n - 1),
                   Indices(start + (n - 1) * MEM_FRAME_SIZE))
  }

  /** Every call of the loop finds the frames for the tables that it lacks, apart from the bit set. */
  ghost predicate Enough(m: Machine, store: FrameRange, start: nat, n: nat)
    requires start + n * MEM_FRAME_SIZE <= U64_LIMIT
  {
    n == 0 || (Enough(m, store, start, n - 1) &&
      Ready(MapIdentity(m, start, n - 1), store, Indices(start + (n - 1) * MEM_FRAME_SIZE)))
  }

  predicate InPages(page: nat, start: nat, n: nat) {
    start / MEM_FRAME_SIZE <= page < start / MEM_FRAME_SIZE + n
  }

  /** The loop maps exactly its pages, each to itself, and changes no other translation. */
  lemma {:induction false} IdentityTranslates(m: Machine, tables: map<nat, Slot>, store: FrameRange, start: nat, n: nat)
    requires start + n * MEM_FRAME_SIZE < ADDRESS_SPACE + MEM_FRAME_SIZE
    requires Inv(m, tables) && Apart(tables, store) && Enough(m, store, start, n)
    ensures Inv(MapIdentity(m, start, n), IdentityTables(m, tables, start, n))
    ensures Apart(IdentityTables(m, tables, start, n), store)
    ensures forall w: nat :: (
      Translate(MapIdentity(m, start, n), Indices(w)) ==
        if InPages(PageNumber(w), start, n) then Some(Page(PageNumber(w), true)) else Translate(m, Indices(w)))
    decreases n
  {
    hide Inv, Translate, Indices, MapPage, Missing, CountClear, MapTables, PageNumber, Apart, Spared, Grows, Reach;
    hide LeafEntry, Link;
    if n > 0 {
      var v := start + (n - 1) * MEM_FRAME_SIZE;
      IdentityTranslates(m, tables, store, start, n - 1);
      var before, t := MapIdentity(m, start, n - 1), IdentityTables(m, tables, start, n - 1);
      MapMemoryCorrect(before, t, v, v);
      MapPageKeeps(before, t, Indices(v), v / MEM_FRAME_SIZE);
      ApartMeaning(before, t, MapMemory(before, v, v), MapTables(before, t, Indices(v)), Missing(before, Indices(v)), store);
      PageOf(start, n - 1);
      forall w: nat
        ensures Translate(MapIdentity(m, start, n), Indices(w)) ==
          if InPages(PageNumber(w), start, n) then Some(Page(PageNumber(w), true)) else Translate(m, Indices(w))
      {
        IndicesArePageNumber(v, w);
      }
    }
  }

  lemma PageOf(start: nat, k: nat)
    requires start + k * MEM_FRAME_SIZE < ADDRESS_SPACE
    ensures var v := start + k * MEM_FRAME_SIZE;
      && PageNumber(v) == start / MEM_FRAME_SIZE + k
      && v / MEM_FRAME_SIZE % FRAME_LIMIT == start / MEM_FRAME_SIZE + k
  {
    assert (start + k * MEM_FRAME_SIZE) / MEM_FRAME_SIZE == start / MEM_FRAME_SIZE + k;
  }

  // ----- how many tables a mapping loop takes

  function Ceil(n: nat, b: nat): nat
    requires b > 0
  {
    (n + b - 1) / b
  }

  /** The tables below the root for n consecutive pages from page 0. */
  function TablesFor(n: nat): nat {
    Ceil(n, 512) + Ceil(n, 0x4_0000) + Ceil(n, 0x800_0000)
  }

  /** The number of pages under a path of length k. */
  function Span(k: nat): (n: nat)
    requires 1 <= k <= 3
    ensures n > 0
  {
    if k == 1 then 0x800_0000 else if k == 2 then 0x4_0000 else 512
  }

  /** The a-th stretch of Span(k) pages holds one of the first n pages, or of the c pages from s on. */
  predicate Touched(a: nat, k: nat, n: nat, s: nat, c: nat)
    requires 1 <= k <= 3
  {
    a < Ceil(n, Span(k)) || (c > 0 && s / Span(k) <= a <= (s + c - 1) / Span(k))
  }

  /** The tables below the root are exactly those under which one of these pages lies. */
  ghost predicate Opened(m: Machine, n: nat, s: nat, c: nat) {
    forall q: Path :: 1 <= |q| <= 3 ==> (Reach(m.ram, m.root, q).Some? <==> Touched(Number(q), |q|, n, s, c))
  }

  /** How many stretches of Span(k) pages the c pages from s on touch and the first n pages do not. */
  function New(k: nat, n: nat, s: nat, c: nat): nat
    requires 1 <= k <= 3
  {
    var first := if s / Span(k) < Ceil(n, Span(k)) then Ceil(n, Span(k)) else s / Span(k);
    if c > 0 && first <= (s + c - 1) / Span(k) then (s + c - 1) / Span(k) + 1 - first else 0
  }

  /** The tables that a loop over c pages from an address on adds to those for the first n pages. */
  function Added(n: nat, start: nat, c: nat): nat {
    var s := start / MEM_FRAME_SIZE;
    New(1, n, s, c) + New(2, n, s, c) + New(3, n, s, c)
  }

  lemma PrefixNumbers(p: PagePath)
    ensures Number(p[..3]) == Number(p) / 512 && Number(p[..2]) == Number(p) / 0x4_0000
    ensures Number(p[..1]) == Number(p) / 0x800_0000
  {
    assert p[..3][..2] == p[..2] && p[..2][..1] == p[..1];
    assert Number(p) == 512 * Number(p[..3]) + (p[3] as int);
    assert Number(p[..3]) == 512 * Number(p[..2]) + (p[2] as int);
    assert Number(p[..2]) == 512 * Number(p[..1]) + (p[1] as int);
  }

  /** The path q is on the way to page n exactly when page n lies in its span. */
  lemma PrefixOfPage(p: PagePath, q: Path, n: nat)
    requires Number(p) == n && 1 <= |q| <= 3
    ensures q <= p <==> Number(q) == n / Span(|q|)
  {
    hide Number;
    PrefixNumbers(p);
    if q <= p {
      assert q == p[..|q|];
    } else if Number(q) == n / Span(|q|) {
      NumberInjective(q, p[..|q|]);
    }
  }

  /** The next page lies in the same stretch or opens the one after it. */
  lemma NextStretch(x: nat, k: nat)
    requires 1 <= k <= 3
    ensures (x + 1) / Span(k) == x / Span(k) || (x + 1) / Span(k) == x / Span(k) + 1
  {
    if k == 1 {
    } else if k == 2 {
    } else {
    }
  }

  lemma LaterStretch(s: nat, c: nat, k: nat)
    requires 1 <= k <= 3
    ensures s / Span(k) <= (s + c) / Span(k)
  {
    if k == 1 {
    } else if k == 2 {
    } else {
    }
  }

  lemma TouchStep(a: nat, k: nat, n: nat, s: nat, c: nat)
    requires 1 <= k <= 3
    ensures Touched(a, k, n, s, c + 1) <==> Touched(a, k, n, s, c) || a == (s + c) / Span(k)
  {
    hide Span, Ceil;
    LaterStretch(s, c, k);
    if c > 0 {
      LaterStretch(s, c - 1, k);
      NextStretch(s + c - 1, k);
    }
  }

  lemma NewStep(k: nat, n: nat, s: nat, c: nat)
    requires 1 <= k <= 3
    ensures New(k, n, s, c + 1) == New(k, n, s, c) + One(!Touched((s + c) / Span(k), k, n, s, c))
  {
    hide Span, Ceil;
    LaterStretch(s, c, k);
    if c > 0 {
      LaterStretch(s, c - 1, k);
      NextStretch(s + c - 1, k);
    }
  }

  /** One more page takes a frame for each level at which it opens a new table. */
  lemma MissingAtPage(m: Machine, p: PagePath, n: nat, start: nat, c: nat)
    requires Opened(m, n, start / MEM_FRAME_SIZE, c) && Number(p) == start / MEM_FRAME_SIZE + c
    ensures Added(n, start, c + 1) == Added(n, start, c) + Missing(m, p)
  {
    hide Number, Reach, Touched, New;
    var s := start / MEM_FRAME_SIZE;
    PrefixNumbers(p);
    assert |p[..1]| == 1 && |p[..2]| == 2 && |p[..3]| == 3;
    NewStep(1, n, s, c);
    NewStep(2, n, s, c);
    NewStep(3, n, s, c);
  }

  lemma OpenedStep(m: Machine, m': Machine, p: PagePath, n: nat, s: nat, c: nat)
    requires Opened(m, n, s, c) && Number(p) == s + c
    requires forall q: Path :: |q| <= 3 && !(0 < |q| && q <= p) ==>
      Reach(m'.ram, m'.root, q) == Reach(m.ram, m.root, q)
    requires forall q: Path :: |q| <= 3 && q <= p ==> Reach(m'.ram, m'.root, q).Some?
    ensures Opened(m', n, s, c + 1)
  {
    hide Number, Reach, Span, Touched;
    forall q: Path | 1 <= |q| <= 3
      ensures Reach(m'.ram, m'.root, q).Some? <==> Touched(Number(q), |q|, n, s, c + 1)
    {
      PrefixOfPage(p, q, s + c);
      TouchStep(Number(q), |q|, n, s, c);
    }
  }

  /** One turn of a mapping loop. */
  lemma LoopStep(m: Machine, tables: map<nat, Slot>, n: nat, start: nat, c: nat)
    requires Inv(m, tables) && Opened(m, n, start / MEM_FRAME_SIZE, c)
    requires start + c * MEM_FRAME_SIZE < ADDRESS_SPACE
    requires CountClear(m.frames.bits) + Added(n, start, c) >= Added(n, start, c + 1)
    ensures var v := start + c * MEM_FRAME_SIZE;
      && Added(n, start, c + 1) == Added(n, start, c) + Missing(m, Indices(v))
      && Inv(MapMemory(m, v, v), MapTables(m, tables, Indices(v)))
      && Opened(MapMemory(m, v, v), n, start / MEM_FRAME_SIZE, c + 1)
      && Grows(m, tables, MapMemory(m, v, v), MapTables(m, tables, Indices(v)), Missing(m, Indices(v)))
  {
    hide Inv, Opened, CountClear, Added, Missing, Indices, MapTables, MapPage, PageNumber, Reach, LeafEntry, Link;
    hide Grows, Number;
    var v := start + c * MEM_FRAME_SIZE;
    PageOf(start, c);
    PageNumberDigits(v);
    MissingAtPage(m, Indices(v), n, start, c);
    MapPageKeeps(m, tables, Indices(v), v / MEM_FRAME_SIZE);
    OpenedStep(m, MapMemory(m, v, v), Indices(v), n, start / MEM_FRAME_SIZE, c);
  }

  lemma AddedMore(n: nat, start: nat, c: nat)
    ensures Added(n, start, c) <= Added(n, start, c + 1)
  {
    hide New, Touched;
    var s := start / MEM_FRAME_SIZE;
    NewStep(1, n, s, c);
    NewStep(2, n, s, c);
    NewStep(3, n, s, c);
  }

  lemma NothingAdded(n: nat, start: nat)
    ensures Added(n, start, 0) == 0
  {
  }

  /**
   * A mapping loop takes exactly one frame for each table that its pages need and the
   * first n pages have not opened, for every range of pages; with so many frames that
   * pass the bit set by it never lacks one.
   */
  lemma {:induction false} LoopCounts(m: Machine, tables: map<nat, Slot>, store: FrameRange, n: nat, start: nat, c: nat)
    requires Inv(m, tables) && Opened(m, n, start / MEM_FRAME_SIZE, 0)
    requires start + c * MEM_FRAME_SIZE < ADDRESS_SPACE + MEM_FRAME_SIZE
    requires CountClear(m.frames.bits) >= Added(n, start, c) && Spared(m.frames.bits, store, Added(n, start, c))
    ensures Enough(m, store, start, c)
    ensures Inv(MapIdentity(m, start, c), IdentityTables(m, tables, start, c))
    ensures Opened(MapIdentity(m, start, c), n, start / MEM_FRAME_SIZE, c)
    ensures Grows(m, tables, MapIdentity(m, start, c), IdentityTables(m, tables, start, c), Added(n, start, c))
    decreases c
  {
    hide Inv, Opened, CountClear, Added, Missing, Indices, MapTables, MapMemory, Grows, Spared, Ready;
    if c == 0 {
      NothingAdded(n, start);
      InvGrows(m, tables);
    } else {
      AddedMore(n, start, c - 1);
      var before, total := Added(n, start, c - 1), Added(n, start, c);
      SparedLess(m.frames.bits, store, before, total);
      LoopCounts(m, tables, store, n, start, c - 1);
      var m1, t1 := MapIdentity(m, start, c - 1), IdentityTables(m, tables, start, c - 1);
      EnoughClear(m, tables, m1, t1, before, total);
      LoopStep(m1, t1, n, start, c - 1);
      OneMore(m, tables, m1, t1, MapIdentity(m, start, c), IdentityTables(m, tables, start, c), store,
              Indices(start + (c - 1) * MEM_FRAME_SIZE), before, total);
    }
  }

  lemma InvGrows(m: Machine, tables: map<nat, Slot>)
    requires Inv(m, tables)
    ensures Grows(m, tables, m, tables, 0)
  {
    hide CountSet;
    GrowsNot(m, tables);
  }

  /** One more call after calls that took a frames, within a total that passes the bit set by. */
  lemma OneMore(m: Machine, t: map<nat, Slot>, m1: Machine, t1: map<nat, Slot>, m2: Machine, t2: map<nat, Slot>,
                store: FrameRange, p: PagePath, a: nat, total: nat)
    requires Grows(m, t, m1, t1, a) && Grows(m1, t1, m2, t2, Missing(m1, p)) && a + Missing(m1, p) <= total
    requires CountClear(m.frames.bits) >= total && Spared(m.frames.bits, store, total)
    ensures Ready(m1, store, p) && Grows(m, t, m2, t2, a + Missing(m1, p))
  {
    hide Missing, Spared, Grows, CountSet;
    ClearLeft(m, t, m1, t1, a);
    LowestOf(m, t, m1, t1, a);
    SparedLater(m.frames.bits, m1.frames.bits, store, a, total - a);
    SparedLess(m1.frames.bits, store, Missing(m1, p), total - a);
    GrowsTwice(m, t, m1, t1, m2, t2, a, Missing(m1, p));
  }

  lemma LowestOf(m: Machine, t: map<nat, Slot>, m': Machine, t': map<nat, Slot>, added: nat)
    requires Grows(m, t, m', t', added)
    ensures Lowest(m.frames.bits, m'.frames.bits, added)
  {
  }

  lemma SparedLess(bits: seq<bool>, store: FrameRange, k: nat, n: nat)
    requires Spared(bits, store, n) && k <= n
    ensures Spared(bits, store, k)
  {
  }

  lemma EnoughClear(m: Machine, t: map<nat, Slot>, m1: Machine, t1: map<nat, Slot>, a: nat, total: nat)
    requires Grows(m, t, m1, t1, a) && a <= total && CountClear(m.frames.bits) >= total
    ensures CountClear(m1.frames.bits) >= total - a
  {
    hide CountSet;
  }

  // ----- the boot loop

  /** A root table without entries, in a frame that is taken. */
  ghost predicate EmptyRoot(m: Machine) {
    && |m.ram| == |m.frames.bits| <= FRAME_LIMIT && HintSound(m.frames)
    && m.root < |m.ram| && m.frames.bits[m.root] && m.ram[m.root] == ZeroTable()
  }

  ghost function RootOnly(m: Machine): map<nat, Slot> {
    map[m.root := Slot(0, 0, 0)]
  }

  lemma {:induction false} EmptyRootReaches(m: Machine, q: Path)
    requires EmptyRoot(m) && |q| > 0
    ensures Reach(m.ram, m.root, q).None?
    decreases |q|
  {
    if |q| == 1 {
      ZeroTableEntry(q[0]);
    } else {
      EmptyRootReaches(m, q[..|q| - 1]);
    }
  }

  lemma EmptyRootInv(m: Machine)
    requires EmptyRoot(m)
    ensures Inv(m, RootOnly(m)) && Opened(m, 0, 0, 0)
    ensures forall q: PagePath :: Translate(m, q) == None
  {
    hide Number, Reach, HasFlag, AddressOf, Translate;
    ZeroEntry();
    forall f, i: Index | f in RootOnly(m)
      ensures Child(m.ram, f, i).None? && !HasFlag(m.ram[f][i], PT_LARGEPAGES)
    {
      ZeroTableEntry(i);
    }
    forall q: Path | |q| > 0
      ensures Reach(m.ram, m.root, q).None?
    {
      EmptyRootReaches(m, q);
    }
    forall q: PagePath
      ensures Translate(m, q) == None
    {
      assert |q[..3]| == 3;
      WalkHasFourLevels(m, RootOnly(m), q);
    }
  }

  /** The pages from 0 on are the first pages. */
  lemma AddedFromZero(n: nat)
    ensures Added(0, 0, n) == TablesFor(n)
  {
  }

  lemma OpenedFromZero(m: Machine, n: nat, s: nat)
    requires Opened(m, 0, 0, n)
    ensures Opened(m, n, s, 0)
  {
    hide Number, Reach;
    forall q: Path | 1 <= |q| <= 3
      ensures Touched(Number(q), |q|, 0, 0, n) <==> Touched(Number(q), |q|, n, s, 0)
    {
      TouchedFromZero(Number(q), |q|, n, s);
    }
  }

  lemma TouchedFromZero(a: nat, k: nat, n: nat, s: nat)
    requires 1 <= k <= 3
    ensures Touched(a, k, 0, 0, n) <==> Touched(a, k, n, s, 0)
  {
    if k == 1 {
    } else if k == 2 {
    } else {
    }
  }

  lemma BootLoopCounts(m: Machine, store: FrameRange, n: nat)
    requires EmptyRoot(m) && n <= 0x10_0000_0000
    requires CountClear(m.frames.bits) >= TablesFor(n) && Spared(m.frames.bits, store, TablesFor(n))
    ensures Enough(m, store, 0, n)
    ensures Inv(MapIdentity(m, 0, n), IdentityTables(m, RootOnly(m), 0, n))
    ensures forall s: nat :: Opened(MapIdentity(m, 0, n), n, s, 0)
    ensures Grows(m, RootOnly(m), MapIdentity(m, 0, n), IdentityTables(m, RootOnly(m), 0, n), TablesFor(n))
  {
    hide Inv, Opened, EmptyRoot, CountClear, TablesFor, Added, MapIdentity, IdentityTables, Enough, Grows, Spared;
    hide RootOnly, Translate;
    EmptyRootInv(m);
    AddedFromZero(n);
    LoopCounts(m, RootOnly(m), store, 0, 0, n);
    forall s: nat
      ensures Opened(MapIdentity(m, 0, n), n, s, 0)
    {
      OpenedFromZero(MapIdentity(m, 0, n), n, s);
    }
  }

  /**
   * From an empty root, the boot loop over n pages makes every one of them translate
   * to itself, writable, and maps nothing else; it takes exactly one frame for every
   * 512 pages, every 512^2 pages and every 512^3 pages begun, the lowest clear ones.
   */
  lemma BootLoop(m: Machine, store: FrameRange, n: nat)
    requires EmptyRoot(m) && !store.Has(m.root) && n <= 0x10_0000_0000
    requires CountClear(m.frames.bits) >= TablesFor(n) && Spared(m.frames.bits, store, TablesFor(n))
    ensures Enough(m, store, 0, n)
    ensures forall w: nat :: (
      Translate(MapIdentity(m, 0, n), Indices(w)) ==
        if PageNumber(w) < n then Some(Page(PageNumber(w), true)) else None)
    ensures Inv(MapIdentity(m, 0, n), IdentityTables(m, RootOnly(m), 0, n))
    ensures Apart(IdentityTables(m, RootOnly(m), 0, n), store)
    ensures Grows(m, RootOnly(m), MapIdentity(m, 0, n), IdentityTables(m, RootOnly(m), 0, n), TablesFor(n))
  {
    hide Inv, Opened, EmptyRoot, CountClear, TablesFor, Translate, Indices, PageNumber, MapIdentity, Enough;
    hide Grows, Spared;
    EmptyRootInv(m);
    BootLoopCounts(m, store, n);
    IdentityTranslates(m, RootOnly(m), store, 0, n);
  }

  // ----- the loop over the frame buffer

  /** The number of times the frame buffer loop runs. */
  function LoopPages(size: nat): nat {
    Ceil(size, MEM_FRAME_SIZE)
  }

  /**
   * The loop steps by whole pages from the buffer's first byte, so with an unaligned
   * buffer it may stop before the last page.  It maps every byte exactly when the
   * offsets of the first and the last byte add up to less than a page.
   */
  lemma FrameBufferCovered(base: nat, size: nat)
    requires size > 0
    ensures (forall a :: base <= a < base + size ==> InPages(a / MEM_FRAME_SIZE, base, LoopPages(size)))
      <==> base % MEM_FRAME_SIZE + (size - 1) % MEM_FRAME_SIZE < MEM_FRAME_SIZE
  {
    var last := base + size - 1;
    LastPage(base, size - 1);
    if base % MEM_FRAME_SIZE + (size - 1) % MEM_FRAME_SIZE < MEM_FRAME_SIZE {
      forall a | base <= a < base + size
        ensures InPages(a / MEM_FRAME_SIZE, base, LoopPages(size))
      {
      }
    } else {
      assert !InPages(last / MEM_FRAME_SIZE, base, LoopPages(size));
    }
  }

  /** One page of pixels from the middle of a page: the loop runs once and misses the second half. */
  lemma HalfABufferMissed()
    ensures LoopPages(0x1000) == 1 && !InPages(0x40_17ff / MEM_FRAME_SIZE, 0x40_0800, LoopPages(0x1000))
    ensures !(forall a :: 0x40_0800 <= a < 0x40_1800 ==> InPages(a / MEM_FRAME_SIZE, 0x40_0800, LoopPages(0x1000)))
  {
    FrameBufferCovered(0x40_0800, 0x1000);
  }

  lemma LastPage(base: nat, d: nat)
    ensures (base + d) / MEM_FRAME_SIZE == base / MEM_FRAME_SIZE + d / MEM_FRAME_SIZE
      + One(base % MEM_FRAME_SIZE + d % MEM_FRAME_SIZE >= MEM_FRAME_SIZE)
    ensures LoopPages(d + 1) == d / MEM_FRAME_SIZE + 1
  {
  }
}

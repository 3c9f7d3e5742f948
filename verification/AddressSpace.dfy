// The address translation that PTM_MapMemory builds: one page at a time, over any
// run of kernel operations (rizzos/src/paging/page_table_manager.c).
module AddressSpaces {
  import opened Options
  import opened Bits
  import opened Paging
  import opened PageFrames
  import opened PageTables
  import opened MapPages

  // ----- the theorem about one call

  /** Bits 12 to 47 of a virtual address. */
  function PageNumber(v: nat): nat {
    v / MEM_FRAME_SIZE % 0x10_0000_0000
  }

  datatype Page = Page(frame: nat, writable: bool)

  /** Every link from the root along q allows writing. */
  ghost predicate LinksWritable(ram: seq<Table>, root: nat, q: Path) {
    |q| == 0 ||
    match Reach(ram, root, q[..|q| - 1])
    case None => false
    case Some(f) => LinksWritable(ram, root, q[..|q| - 1]) && f < |ram| && HasFlag(ram[f][q[|q| - 1]], PT_READWRITE)
  }

  /** The walk ends at level k with an entry that is marked as a large page. */
  ghost predicate EndsAt(m: Machine, p: PagePath, k: nat)
    requires k < 3
  {
    HasFlag(EntryAt(m.ram, m.root, p, k), PT_PRESENT) && HasFlag(EntryAt(m.ram, m.root, p, k), PT_LARGEPAGES)
  }

  /** The frame inside a large page of so many frames. */
  function FrameInside(entry: Word, frames: nat, offset: nat): nat
    requires frames > 0
  {
    AddressOf(entry) - AddressOf(entry) % frames + offset
  }

  /** What the last level makes of a page. */
  ghost function SmallPage(m: Machine, p: PagePath): Option<Page> {
    var e := LeafEntry(m.ram, m.root, p);
    if HasFlag(e, PT_PRESENT)
    then Some(Page(AddressOf(e), HasFlag(e, PT_READWRITE) && LinksWritable(m.ram, m.root, p[..3])))
    else None
  }

  /**
   * What the processor makes of an address: the frame, and whether all levels allow
   * writing.  The mark of a large page is reserved at the first level; at the second and
   * third it ends the walk.
   */
  ghost function Translate(m: Machine, p: PagePath): Option<Page> {
    if EndsAt(m, p, 0) then None
    else if EndsAt(m, p, 1) then
      Some(Page(FrameInside(EntryAt(m.ram, m.root, p, 1), 0x4_0000, 512 * (p[2] as int) + (p[3] as int)),
                LinksWritable(m.ram, m.root, p[..2])))
    else if EndsAt(m, p, 2) then
      Some(Page(FrameInside(EntryAt(m.ram, m.root, p, 2), 512, p[3]), LinksWritable(m.ram, m.root, p[..3])))
    else SmallPage(m, p)
  }

  /** The tables that PTM_MapMemory builds have no large pages, so every walk has four levels. */
  lemma WalkHasFourLevels(m: Machine, tables: map<nat, Slot>, p: PagePath)
    requires Inv(m, tables)
    ensures Translate(m, p) == SmallPage(m, p)
  {
    hide HasFlag, LinksWritable, SmallPage, TreeDown, TreeUp, HintSound;
    NoLargeAt(m, tables, p, 0);
    NoLargeAt(m, tables, p, 1);
    NoLargeAt(m, tables, p, 2);
  }

  lemma NoLargeAt(m: Machine, tables: map<nat, Slot>, p: PagePath, k: nat)
    requires Inv(m, tables) && k < 3
    ensures !EndsAt(m, p, k)
  {
    hide HasFlag, HintSound, TreeDown, TreeUp;
    ZeroEntry();
    if Reach(m.ram, m.root, p[..k]).Some? {
      ReachedIsTable(m.ram, m.root, tables, p[..k]);
    }
  }

  function MapMemory(m: Machine, v: nat, p: nat): Machine
    requires p < U64_LIMIT
  {
    MapPage(m, Indices(v), p / MEM_FRAME_SIZE)
  }

  lemma {:induction false} TablesAllowWriting(m: Machine, tables: map<nat, Slot>, q: Path)
    requires Inv(m, tables) && |q| <= 3 && Reach(m.ram, m.root, q).Some?
    ensures LinksWritable(m.ram, m.root, q)
    decreases |q|
  {
    hide HasFlag, AddressOf, TreeUp;
    if |q| > 0 {
      TablesAllowWriting(m, tables, q[..|q| - 1]);
      ReachedIsTable(m.ram, m.root, tables, q[..|q| - 1]);
    }
  }

  /** The number that the indices of a path write in base 512. */
  function Number(q: Path): nat {
    if |q| == 0 then 0 else 512 * Number(q[..|q| - 1]) + (q[|q| - 1] as int)
  }

  lemma {:induction false} NumberInjective(q: Path, r: Path)
    requires |q| == |r| && Number(q) == Number(r)
    ensures q == r
  {
    if |q| > 0 {
      var n := |q| - 1;
      NumberInjective(q[..n], r[..n]);
      assert q == q[..n] + [q[n]] && r == r[..n] + [r[n]];
    }
  }

  /** Two addresses have the same table indices exactly when they are on the same page. */
  lemma IndicesArePageNumber(v: nat, w: nat)
    ensures Indices(v) == Indices(w) <==> PageNumber(v) == PageNumber(w)
  {
    hide Indices, Number, PageNumber;
    PageNumberDigits(v);
    PageNumberDigits(w);
    if PageNumber(v) == PageNumber(w) {
      NumberInjective(Indices(v), Indices(w));
    }
  }

  lemma PageNumberDigits(v: nat)
    ensures PageNumber(v) == Number(Indices(v))
  {
    var n := v / 0x1000;
    DivideTwice(v, 0x1000, 512);
    DivideTwice(v, 0x20_0000, 512);
    DivideTwice(v, 0x4000_0000, 512);
    FourDigits(n, n / 512, n / 512 / 512, n / 512 / 512 / 512);
    NumberOfFour(Indices(v));
  }

  lemma NumberOfFour(p: PagePath)
    ensures Number(p) == (p[3] as int) + 512 * ((p[2] as int) + 512 * ((p[1] as int) + 512 * (p[0] as int)))
  {
    assert p[..3][..2] == p[..2] && p[..2][..1] == p[..1] && p[..1][..0] == [];
    assert Number(p[..1]) == p[0] as int;
    assert Number(p[..2]) == 512 * Number(p[..1]) + (p[1] as int);
    assert Number(p[..3]) == 512 * Number(p[..2]) + (p[2] as int);
  }

  lemma FourDigits(n: nat, n1: nat, n2: nat, n3: nat)
    requires n1 == n / 512 && n2 == n1 / 512 && n3 == n2 / 512
    ensures n % 0x10_0000_0000 == n % 512 + 512 * (n1 % 512 + 512 * (n2 % 512 + 512 * (n3 % 512)))
  {
    Remainder36(n, n3 / 512, n % 512 + 512 * (n1 % 512 + 512 * (n2 % 512 + 512 * (n3 % 512))));
  }

  lemma Remainder36(n: nat, q: nat, low: nat)
    requires n == 0x10_0000_0000 * q + low && low < 0x10_0000_0000
    ensures n % 0x10_0000_0000 == low
  {
  }

  lemma DivideTwice(v: nat, a: nat, b: nat)
    requires a in {0x1000, 0x20_0000, 0x4000_0000} && b == 512
    ensures v / (a * b) == v / a / b
  {
  }

  /** The whole effect of mapping one page, for every path. */
  lemma MapPageKeeps(m: Machine, tables: map<nat, Slot>, p: PagePath, frame: Word)
    requires Inv(m, tables) && CountClear(m.frames.bits) >= Missing(m, p)
    ensures var m' := MapPage(m, p, frame);
      && Inv(m', MapTables(m, tables, p))
      && Grows(m, tables, m', MapTables(m, tables, p), Missing(m, p))
      && (forall q: PagePath :: LeafEntry(m'.ram, m'.root, q) ==
            if q == p then Link(LeafEntry(m.ram, m.root, p), frame) else LeafEntry(m.ram, m.root, q))
      && (forall q: Path :: |q| <= 3 && !(0 < |q| && q <= p) ==> Reach(m'.ram, m'.root, q) == Reach(m.ram, m.root, q))
      && (forall q: Path :: |q| <= 3 && q <= p ==> Reach(m'.ram, m'.root, q).Some?)
      && (forall q: Path :: |q| <= 3 && Reach(m.ram, m.root, q).Some? ==>
            Reach(m'.ram, m'.root, q) == Reach(m.ram, m.root, q))
  {
    hide Inv, Grows, Reach, LeafEntry, Link, MapTables, CountClear, Missing;
    DescendKeeps(m, tables, p);
    var (m3, pt) := Descend(m, p);
    var t := MapTables(m, tables, p);
    assert |p[..3]| == 3;
    PutLeafKeeps(m3, t, pt, p, frame);
    GrowsThenLeaf(m, tables, m3, t, Missing(m, p), PutLeaf(m3, pt, p[3], frame), pt, p[..3]);
  }

  lemma GrowsThenLeaf(m: Machine, t: map<nat, Slot>, m3: Machine, t3: map<nat, Slot>, n: nat, m': Machine, pt: nat, q: Path)
    requires Grows(m, t, m3, t3, n) && Inv(m3, t3) && |q| <= 3 && Reach(m3.ram, m3.root, q) == Some(pt)
    requires m' == m3.(ram := m'.ram) && |m'.ram| == |m3.ram|
    requires forall g :: 0 <= g < |m3.ram| && g != pt ==> m'.ram[g] == m3.ram[g]
    ensures Grows(m, t, m', t3, n)
  {
    hide CountSet, Tree, Reach;
    ReachedIsTable(m3.ram, m3.root, t3, q);
  }

  /**
   * Afterwards the address translates to the given frame (modulo 2^40), writable, and
   * every address on another page translates exactly as before, mapped or not.
   */
  lemma MapMemoryCorrect(m: Machine, tables: map<nat, Slot>, v: nat, p: nat)
    requires Inv(m, tables) && p < U64_LIMIT && CountClear(m.frames.bits) >= Missing(m, Indices(v))
    ensures var m' := MapMemory(m, v, p);
      && Inv(m', MapTables(m, tables, Indices(v)))
      && Translate(m', Indices(v)) == Some(Page(p / MEM_FRAME_SIZE % FRAME_LIMIT, true))
      && forall w: nat :: PageNumber(w) != PageNumber(v) ==> Translate(m', Indices(w)) == Translate(m, Indices(w))
  {
    hide Inv, Reach, LeafEntry, Link, MapTables, Indices, Missing, MapPage, HasFlag, AddressOf, LinksWritable;
    hide Grows, PageNumber, Translate;
    var m' := MapMemory(m, v, p);
    MapPageKeeps(m, tables, Indices(v), p / MEM_FRAME_SIZE);
    LinkMeaning(LeafEntry(m.ram, m.root, Indices(v)), p / MEM_FRAME_SIZE);
    assert |Indices(v)[..3]| == 3 && Indices(v)[..3] <= Indices(v);
    TablesAllowWriting(m', MapTables(m, tables, Indices(v)), Indices(v)[..3]);
    WalkHasFourLevels(m', MapTables(m, tables, Indices(v)), Indices(v));
    forall w: nat | PageNumber(w) != PageNumber(v)
      ensures Translate(m', Indices(w)) == Translate(m, Indices(w))
    {
      IndicesArePageNumber(v, w);
      SameTranslation(m, tables, m', MapTables(m, tables, Indices(v)), Indices(w));
    }
  }

  /** A page whose entry is unchanged translates the same, because tables allow writing. */
  lemma SameTranslation(m: Machine, t: map<nat, Slot>, m': Machine, t': map<nat, Slot>, q: PagePath)
    requires Inv(m, t) && Inv(m', t') && LeafEntry(m'.ram, m'.root, q) == LeafEntry(m.ram, m.root, q)
    ensures Translate(m', q) == Translate(m, q)
  {
    hide Inv, Reach, HasFlag, AddressOf, LinksWritable, Translate;
    WalkHasFourLevels(m, t, q);
    WalkHasFourLevels(m', t', q);
    if HasFlag(LeafEntry(m.ram, m.root, q), PT_PRESENT) {
      ZeroEntry();
      TablesAllowWriting(m, t, q[..3]);
      TablesAllowWriting(m', t', q[..3]);
    }
  }

  /** The address is mapped to the very frame asked for exactly below 2^52. */
  lemma FrameIsExact(p: nat)
    requires p < U64_LIMIT
    ensures p / MEM_FRAME_SIZE % FRAME_LIMIT == p / MEM_FRAME_SIZE <==> p < 0x10_0000_0000_0000
  {
  }

  /** The first address beyond is mapped to frame 0. */
  lemma AddressTooHigh(m: Machine, tables: map<nat, Slot>, v: nat)
    requires Inv(m, tables) && CountClear(m.frames.bits) >= Missing(m, Indices(v))
    ensures Translate(MapMemory(m, v, 0x10_0000_0000_0000), Indices(v)) == Some(Page(0, true))
  {
    hide Inv, Translate, MapMemory, Indices, Missing, CountClear;
    MapMemoryCorrect(m, tables, v, 0x10_0000_0000_0000);
  }
}

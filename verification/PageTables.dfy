// Four-level page tables in physical memory (section 4.5 of the Intel SDM, Volume
// 3A), and what PTM_MapMemory (rizzos/src/paging/page_table_manager.c) does to them.
module PageTables {
  import opened Options
  import opened Bits
  import opened Paging
  import opened PageFrames

  const ENTRIES: nat := 512

  type Table = t: seq<Word> | |t| == ENTRIES witness seq(ENTRIES, _ => 0)

  function ZeroTable(): (t: Table)
    ensures forall i :: 0 <= i < ENTRIES ==> t[i] == 0
  {
    seq(ENTRIES, _ => 0)
  }

  /** Physical memory as one table for each frame, the allocator, and the root frame. */
  datatype Machine = Machine(ram: seq<Table>, frames: Frames, root: nat)

  type Index = i: nat | i < ENTRIES

  /** A position in the tables: one index for each level passed, from the root. */
  type Path = seq<Index>

  /** A page has a path of four indices. */
  type PagePath = p: seq<Index> | |p| == 4 witness [0, 0, 0, 0]

  /** The frame that entry i of the table in frame f points to. */
  function Child(ram: seq<Table>, f: nat, i: Index): Option<nat> {
    if f < |ram| && HasFlag(ram[f][i], PT_PRESENT) then Some(AddressOf(ram[f][i])) else None
  }

  /** The table that the hardware reaches along p. */
  function Reach(ram: seq<Table>, root: nat, p: Path): Option<nat> {
    if |p| == 0 then Some(root)
    else match Reach(ram, root, p[..|p| - 1])
      case None => None
      case Some(f) => Child(ram, f, p[|p| - 1])
  }

  /** The entry for a page at level k; zero when a table on the way is missing. */
  function EntryAt(ram: seq<Table>, root: nat, p: PagePath, k: nat): Word
    requires k < 4
  {
    match Reach(ram, root, p[..k])
    case None => 0
    case Some(f) => if f < |ram| then ram[f][p[k]] else 0
  }

  /** The last-level entry. */
  function LeafEntry(ram: seq<Table>, root: nat, p: PagePath): Word {
    match Reach(ram, root, p[..3])
    case None => 0
    case Some(f) => if f < |ram| then ram[f][p[3]] else 0
  }

  /** The four table indices of a virtual address (PMI_Create). */
  function Indices(v: nat): PagePath {
    [v / 0x80_0000_0000 % 512, v / 0x4000_0000 % 512, v / 0x20_0000 % 512, v / 0x1000 % 512]
  }

  // ----- one entry

  /** What the code stores: the frame number, present and writable, other flags kept. */
  function Link(w: Word, frame: Word): Word {
    WithFlag(WithFlag(WithAddress(w, frame), PT_PRESENT, true), PT_READWRITE, true)
  }

  lemma LinkMeaning(w: Word, frame: Word)
    ensures HasFlag(Link(w, frame), PT_PRESENT) && HasFlag(Link(w, frame), PT_READWRITE)
    ensures AddressOf(Link(w, frame)) == frame % FRAME_LIMIT
  {
    var a := WithAddress(w, frame);
    AddressMeaning(w, frame);
    FlagMeaning(WithFlag(a, PT_PRESENT, true), PT_READWRITE, true, PT_PRESENT);
    FlagMeaning(WithFlag(a, PT_PRESENT, true), PT_READWRITE, true, PT_READWRITE);
    FlagMeaning(a, PT_PRESENT, true, PT_PRESENT);
    LowFlagKeepsAddress(a, PT_PRESENT);
    LowFlagKeepsAddress(WithFlag(a, PT_PRESENT, true), PT_READWRITE);
  }

  lemma LowFlagKeepsAddress(w: Word, f: Flag)
    requires f == PT_PRESENT || f == PT_READWRITE
    ensures AddressOf(WithFlag(w, f, true)) == AddressOf(w)
  {
    hide PutDigit;
    PutDigitParts(w, f, true);
    PutDigitParts(w / 2, 0, true);
    assert PutDigit(w, f, true) / 2 / 2 == w / 2 / 2;
    assert forall x: nat :: x / MEM_FRAME_SIZE == x / 2 / 2 / 0x400;
  }

  /** The mark of a large page is kept, as is every flag but those two. */
  lemma LinkKeepsFlags(w: Word, frame: Word, f: Flag)
    requires 2 <= f < 12
    ensures HasFlag(Link(w, frame), f) <==> HasFlag(w, f)
  {
    hide WithFlag, WithAddress, Digit;
    var a := WithAddress(w, frame);
    FlagMeaning(a, PT_PRESENT, true, f);
    FlagMeaning(WithFlag(a, PT_PRESENT, true), PT_READWRITE, true, f);
    AddressMeaning(w, frame);
    LowDigits(w, f);
    LowDigits(a, f);
  }

  lemma ZeroEntry()
    ensures !HasFlag(0, PT_PRESENT) && !HasFlag(0, PT_LARGEPAGES)
  {
    ZeroDigit(PT_LARGEPAGES);
  }

  lemma ZeroTableEntry(i: Index)
    ensures !HasFlag(ZeroTable()[i], PT_PRESENT) && !HasFlag(ZeroTable()[i], PT_LARGEPAGES)
  {
    ZeroEntry();
  }

  // ----- the tables form a tree

  /** Where a table hangs: its distance from the root and the entry that points to it. */
  datatype Slot = Slot(depth: nat, parent: nat, index: Index)

  /** Every link from a table leads to a table that hangs exactly there. */
  ghost predicate TreeDown(ram: seq<Table>, tables: map<nat, Slot>) {
    forall f, i: Index :: f in tables && tables[f].depth < 3 && Child(ram, f, i).Some? ==>
      var c := Child(ram, f, i).value;
      c in tables && tables[c] == Slot(tables[f].depth + 1, f, i) && HasFlag(ram[f][i], PT_READWRITE)
  }

  /** Table f is linked from where it hangs, by a table one level up. */
  ghost predicate Hangs(ram: seq<Table>, tables: map<nat, Slot>, f: nat)
    requires f in tables
  {
    && tables[f].depth > 0 && tables[f].parent in tables
    && tables[tables[f].parent].depth + 1 == tables[f].depth
    && Child(ram, tables[f].parent, tables[f].index) == Some(f)
  }

  /** Every table but the root is linked from where it hangs. */
  ghost predicate TreeUp(ram: seq<Table>, root: nat, tables: map<nat, Slot>) {
    && root in tables && tables[root].depth == 0
    && (forall f :: f in tables ==> f < |ram| && tables[f].depth <= 3)
    && (forall f {:trigger Hangs(ram, tables, f)} :: f in tables && f != root ==> Hangs(ram, tables, f))
  }

  /** No entry above the last level is marked as a large page. */
  ghost predicate NoLargePages(ram: seq<Table>, tables: map<nat, Slot>) {
    forall f, i: Index {:trigger ram[f][i]} ::
      f in tables && tables[f].depth < 3 && f < |ram| ==> !HasFlag(ram[f][i], PT_LARGEPAGES)
  }

  ghost predicate Tree(ram: seq<Table>, root: nat, tables: map<nat, Slot>) {
    TreeDown(ram, tables) && TreeUp(ram, root, tables) && NoLargePages(ram, tables)
  }

  lemma {:induction false} ReachedIsTable(ram: seq<Table>, root: nat, tables: map<nat, Slot>, p: Path)
    requires Tree(ram, root, tables) && |p| <= 3 && Reach(ram, root, p).Some?
    ensures var f := Reach(ram, root, p).value; f in tables && tables[f].depth == |p| && f < |ram|
    decreases |p|
  {
    if |p| > 0 {
      ReachedIsTable(ram, root, tables, p[..|p| - 1]);
    }
  }

  lemma LinkTarget(ram: seq<Table>, root: nat, tables: map<nat, Slot>, f: nat, i: Index)
    requires Tree(ram, root, tables) && f in tables && tables[f].depth < 3 && Child(ram, f, i).Some?
    ensures var c := Child(ram, f, i).value; c in tables && tables[c] == Slot(tables[f].depth + 1, f, i)
  {
  }

  /** Two paths never lead to the same table. */
  lemma {:induction false} ReachInjective(ram: seq<Table>, root: nat, tables: map<nat, Slot>, p: Path, q: Path)
    requires Tree(ram, root, tables) && |p| <= 3 && |q| <= 3
    requires Reach(ram, root, p).Some? && Reach(ram, root, p) == Reach(ram, root, q)
    ensures p == q
    decreases |p|
  {
    hide Tree, Child;
    ReachedIsTable(ram, root, tables, p);
    ReachedIsTable(ram, root, tables, q);
    if |p| > 0 {
      var n := |p| - 1;
      ReachedIsTable(ram, root, tables, p[..n]);
      ReachedIsTable(ram, root, tables, q[..n]);
      LinkTarget(ram, root, tables, Reach(ram, root, p[..n]).value, p[n]);
      LinkTarget(ram, root, tables, Reach(ram, root, q[..n]).value, q[n]);
      ReachInjective(ram, root, tables, p[..n], q[..n]);
      assert p == p[..n] + [p[n]] && q == q[..n] + [q[n]];
    }
  }

  /** Every table is reached along some path. */
  lemma {:induction false} TableIsReached(ram: seq<Table>, root: nat, tables: map<nat, Slot>, f: nat) returns (p: Path)
    requires Tree(ram, root, tables) && f in tables
    ensures |p| == tables[f].depth && Reach(ram, root, p) == Some(f)
    decreases tables[f].depth
  {
    if f == root {
      p := [];
    } else {
      assert Hangs(ram, tables, f);
      var q := TableIsReached(ram, root, tables, tables[f].parent);
      p := q + [tables[f].index];
      assert p[..|p| - 1] == q;
    }
  }

  // ----- what PTM_MapMemory does

  /**
   * The table behind entry i of the table in frame f.  When the entry is not present,
   * a frame is requested, zeroed and linked in.  A request that fails returns the null
   * pointer, and then frame 0 is zeroed and linked in: the code does not check.
   */
  function NextTable(m: Machine, f: nat, i: Index): (r: (Machine, nat))
    ensures |r.0.ram| == |m.ram| && r.0.root == m.root
  {
    if f >= |m.ram| || m.frames.hint > |m.frames.bits| then (m, f)
    else if HasFlag(m.ram[f][i], PT_PRESENT) then (m, AddressOf(m.ram[f][i]))
    else
      var request := RequestFrame(m.frames);
      var c := request.1 / MEM_FRAME_SIZE;
      if c >= |m.ram| then (m, f)
      else
        var zeroed := m.ram[c := ZeroTable()];
        var table: Table := zeroed[f][i := Link(m.ram[f][i], c % U64_LIMIT)];
        (Machine(zeroed[f := table], request.0, m.root), c)
  }

  function PutLeaf(m: Machine, f: nat, i: Index, frame: Word): (r: Machine)
    ensures |r.ram| == |m.ram| && r.root == m.root && r.frames == m.frames
  {
    if f >= |m.ram| then m else m.(ram := m.ram[f := m.ram[f][i := Link(m.ram[f][i], frame)]])
  }

  /** PTM_MapMemory for the page with the given indices and frame number. */
  function MapPage(m: Machine, p: PagePath, frame: Word): Machine {
    var (m1, pdp) := NextTable(m, m.root, p[0]);
    var (m2, pd) := NextTable(m1, pdp, p[1]);
    var (m3, pt) := NextTable(m2, pd, p[2]);
    PutLeaf(m3, pt, p[3], frame)
  }

  // ----- the invariant

  /** The tables form a tree, and each is taken in the allocator's bit set. */
  ghost predicate Inv(m: Machine, tables: map<nat, Slot>) {
    && |m.ram| == |m.frames.bits| <= FRAME_LIMIT
    && HintSound(m.frames)
    && Tree(m.ram, m.root, tables)
    && forall f :: f in tables ==> m.frames.bits[f]
  }

  /** ram' differs from ram, in the tables, at most in entry i of frame f. */
  ghost predicate OneEntryChanged(ram: seq<Table>, ram': seq<Table>, tables: map<nat, Slot>, f: nat, i: Index) {
    && |ram'| == |ram|
    && forall g, j: Index :: g in tables && g < |ram| && (g != f || j != i) ==> ram'[g][j] == ram[g][j]
  }

  /** An entry only matters to the paths that go through it. */
  lemma {:induction false} ReachElsewhere(ram: seq<Table>, ram': seq<Table>, root: nat, tables: map<nat, Slot>,
                                          f: nat, i: Index, p: Path, q: Path)
    requires Tree(ram, root, tables) && f in tables && OneEntryChanged(ram, ram', tables, f, i)
    requires |p| <= 3 && Reach(ram, root, p) == Some(f)
    requires |q| <= 3 && !(p + [i] <= q)
    ensures Reach(ram', root, q) == Reach(ram, root, q)
    decreases |q|
  {
    hide Tree, HasFlag, AddressOf;
    if |q| > 0 {
      var n := |q| - 1;
      assert q == q[..n] + [q[n]];
      ReachElsewhere(ram, ram', root, tables, f, i, p, q[..n]);
      if Reach(ram, root, q[..n]).Some? {
        var g := Reach(ram, root, q[..n]).value;
        ReachedIsTable(ram, root, tables, q[..n]);
        if g == f {
          ReachInjective(ram, root, tables, q[..n], p);
        }
      }
    }
  }
}

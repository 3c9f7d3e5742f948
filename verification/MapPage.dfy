// PTM_MapMemory (rizzos/src/paging/page_table_manager.c:15-63) changes the
// translation of one page and keeps the tables a tree.
module MapPages {
  import opened Options
  import opened Bits
  import opened Paging
  import opened PageFrames
  import opened PageTables
  import opened Storages

  /** The tables after one NextTable. */
  ghost function GrowTables(m: Machine, tables: map<nat, Slot>, f: nat, i: Index): map<nat, Slot> {
    if f !in tables || Child(m.ram, f, i).Some? then tables
    else tables[NextTable(m, f, i).1 := Slot(tables[f].depth + 1, f, i)]
  }

  /** Along p a path now leads to c; every other path leads where it led. */
  ghost predicate ReachExtended(m: Machine, m': Machine, p: Path, c: nat) {
    forall q: Path :: |q| <= 3 ==>
      Reach(m'.ram, m'.root, q) == if q == p then Some(c) else Reach(m.ram, m.root, q)
  }

  ghost predicate SameLeaves(m: Machine, m': Machine) {
    forall q: PagePath :: LeafEntry(m'.ram, m'.root, q) == LeafEntry(m.ram, m.root, q)
  }

  // ----- a new table

  /** What a new table does to the machine, spelled out. */
  ghost predicate TableAdded(m: Machine, m': Machine, f: nat, i: Index, c: nat) {
    && f < |m.ram| == |m.frames.bits| <= FRAME_LIMIT
    && c < |m.ram| && !m.frames.bits[c] && c != f && (forall j :: 0 <= j < c ==> m.frames.bits[j])
    && m'.root == m.root
    && m'.frames.bits == m.frames.bits[c := true] && HintSound(m'.frames)
    && |m'.ram| == |m.ram|
    && m'.ram[c] == ZeroTable()
    && m'.ram[f] == m.ram[f][i := Link(m.ram[f][i], c)]
    && forall g :: 0 <= g < |m.ram| && g != f && g != c ==> m'.ram[g] == m.ram[g]
  }

  lemma NewTable(m: Machine, f: nat, i: Index)
    requires f < |m.ram| == |m.frames.bits| <= FRAME_LIMIT && HintSound(m.frames) && m.frames.bits[f]
    requires !HasFlag(m.ram[f][i], PT_PRESENT) && !Full(m.frames.bits)
    ensures TableAdded(m, NextTable(m, f, i).0, f, i, NextTable(m, f, i).1)
  {
    hide Link, Wrap;
    var c := FirstClear(m.frames.bits, m.frames.hint);
    assert c < |m.frames.bits|;
    assert c * MEM_FRAME_SIZE / MEM_FRAME_SIZE == c;
    assert c % U64_LIMIT == c;
  }

  lemma NewTableDown(m: Machine, m': Machine, tables: map<nat, Slot>, f: nat, i: Index, c: nat)
    requires Inv(m, tables) && f in tables && tables[f].depth < 3 && Child(m.ram, f, i).None?
    requires TableAdded(m, m', f, i, c)
    ensures c !in tables && TreeDown(m'.ram, tables[c := Slot(tables[f].depth + 1, f, i)])
  {
    hide Link, Digit, AddressOf, HasFlag, HintSound, TreeUp;
    var tables' := tables[c := Slot(tables[f].depth + 1, f, i)];
    LinkMeaning(m.ram[f][i], c);
    ZeroEntry();
    forall g, j: Index | g in tables' && tables'[g].depth < 3 && Child(m'.ram, g, j).Some?
      ensures var d := Child(m'.ram, g, j).value;
        d in tables' && tables'[d] == Slot(tables'[g].depth + 1, g, j) && HasFlag(m'.ram[g][j], PT_READWRITE)
    {
      if g != c && (g != f || j != i) {
        assert m'.ram[g][j] == m.ram[g][j];
        assert Child(m.ram, g, j).Some?;
      }
    }
  }

  lemma NewTableUp(m: Machine, m': Machine, tables: map<nat, Slot>, f: nat, i: Index, c: nat)
    requires TreeUp(m.ram, m.root, tables) && c !in tables
    requires f in tables && tables[f].depth < 3 && Child(m.ram, f, i).None?
    requires TableAdded(m, m', f, i, c)
    ensures TreeUp(m'.ram, m.root, tables[c := Slot(tables[f].depth + 1, f, i)])
  {
    hide Link, Digit, AddressOf, HasFlag, HintSound;
    var tables' := tables[c := Slot(tables[f].depth + 1, f, i)];
    LinkMeaning(m.ram[f][i], c);
    forall g | g in tables' && g != m.root
      ensures Hangs(m'.ram, tables', g)
    {
      if g != c {
        assert Hangs(m.ram, tables, g);
        var h, j := tables[g].parent, tables[g].index;
        assert m'.ram[h][j] == m.ram[h][j];
      }
    }
  }

  lemma NewTableSmall(m: Machine, m': Machine, tables: map<nat, Slot>, f: nat, i: Index, c: nat)
    requires NoLargePages(m.ram, tables) && f in tables && tables[f].depth < 3 && TableAdded(m, m', f, i, c)
    ensures NoLargePages(m'.ram, tables[c := Slot(tables[f].depth + 1, f, i)])
  {
    hide Link, HasFlag, HintSound;
    LinkKeepsFlags(m.ram[f][i], c, PT_LARGEPAGES);
    ZeroEntry();
    var tables' := tables[c := Slot(tables[f].depth + 1, f, i)];
    forall g, j: Index | g in tables' && tables'[g].depth < 3 && g < |m'.ram|
      ensures !HasFlag(m'.ram[g][j], PT_LARGEPAGES)
    {
      if g != c {
        assert !HasFlag(m.ram[g][j], PT_LARGEPAGES);
      }
    }
  }

  lemma NewTableTree(m: Machine, m': Machine, tables: map<nat, Slot>, f: nat, i: Index, c: nat)
    requires Inv(m, tables) && f in tables && tables[f].depth < 3 && Child(m.ram, f, i).None?
    requires TableAdded(m, m', f, i, c)
    ensures c !in tables && Inv(m', tables[c := Slot(tables[f].depth + 1, f, i)])
  {
    hide Link, TreeDown, TreeUp, NoLargePages, HintSound, Child;
    NewTableDown(m, m', tables, f, i, c);
    NewTableSmall(m, m', tables, f, i, c);
    NewTableUp(m, m', tables, f, i, c);
    assert f < |m.ram| by {
      TableInRam(m.ram, m.root, tables, f);
    }
    forall g | g in tables && g != c
      ensures g < |m.ram| && m'.frames.bits[g]
    {
      TableInRam(m.ram, m.root, tables, g);
    }
  }

  lemma TableInRam(ram: seq<Table>, root: nat, tables: map<nat, Slot>, f: nat)
    requires TreeUp(ram, root, tables) && f in tables
    ensures f < |ram|
  {
  }

  lemma {:induction false} NothingBelowNone(ram: seq<Table>, root: nat, q: Path, n: nat)
    requires n <= |q| && Reach(ram, root, q[..n]).None?
    ensures Reach(ram, root, q).None?
    decreases |q|
  {
    if n == |q| {
      assert q[..n] == q;
    } else {
      assert q[..|q| - 1][..n] == q[..n];
      NothingBelowNone(ram, root, q[..|q| - 1], n);
    }
  }

  lemma ReachStep(ram: seq<Table>, root: nat, p: Path, i: Index)
    requires Reach(ram, root, p).Some?
    ensures Reach(ram, root, p + [i]) == Child(ram, Reach(ram, root, p).value, i)
  {
    assert (p + [i])[..|p|] == p;
  }

  lemma NewTableAt(m: Machine, m': Machine, tables: map<nat, Slot>, f: nat, i: Index, c: nat, p: Path)
    requires Inv(m, tables) && f in tables && |p| < 3 && Child(m.ram, f, i).None?
    requires Reach(m.ram, m.root, p) == Some(f)
    requires TableAdded(m, m', f, i, c)
    ensures OneEntryChanged(m.ram, m'.ram, tables, f, i)
    ensures Reach(m.ram, m.root, p + [i]).None? && Reach(m'.ram, m.root, p + [i]) == Some(c)
  {
    hide Link, Digit, AddressOf, HasFlag, Tree, Reach;
    LinkMeaning(m.ram[f][i], c);
    assert !(p + [i] <= p);
    ReachElsewhere(m.ram, m'.ram, m.root, tables, f, i, p, p);
    ReachStep(m.ram, m.root, p, i);
    ReachStep(m'.ram, m.root, p, i);
  }

  lemma NewTableReach(m: Machine, m': Machine, tables: map<nat, Slot>, f: nat, i: Index, c: nat, p: Path, q: Path)
    requires Inv(m, tables) && f in tables && |p| < 3 && Child(m.ram, f, i).None?
    requires Reach(m.ram, m.root, p) == Some(f)
    requires TableAdded(m, m', f, i, c)
    requires |q| <= 3
    ensures Reach(m'.ram, m'.root, q) == if q == p + [i] then Some(c) else Reach(m.ram, m.root, q)
  {
    hide Link, Digit, AddressOf, HasFlag, Tree, Reach;
    NewTableAt(m, m', tables, f, i, c, p);
    var n := |p| + 1;
    if p + [i] <= q {
      assert q[..n] == p + [i];
      NothingBelowNone(m.ram, m.root, q, n);
      if |q| > n {
        assert q[..n + 1] == p + [i] + [q[n]];
        ReachStep(m'.ram, m.root, p + [i], q[n]);
        ZeroTableEntry(q[n]);
        NothingBelowNone(m'.ram, m.root, q, n + 1);
      } else {
        assert q == q[..n];
      }
    } else {
      ReachElsewhere(m.ram, m'.ram, m.root, tables, f, i, p, q);
    }
  }

  lemma NewTableLeaf(m: Machine, m': Machine, tables: map<nat, Slot>, f: nat, i: Index, c: nat, p: Path, q: PagePath)
    requires Inv(m, tables) && f in tables && |p| < 3 && Child(m.ram, f, i).None?
    requires Reach(m.ram, m.root, p) == Some(f)
    requires TableAdded(m, m', f, i, c)
    ensures LeafEntry(m'.ram, m'.root, q) == LeafEntry(m.ram, m.root, q)
  {
    hide Link, Digit, AddressOf, HasFlag, Tree, Reach;
    NewTableReach(m, m', tables, f, i, c, p, q[..3]);
    ReachedIsTable(m.ram, m.root, tables, p);
    if q[..3] == p + [i] {
      assert Reach(m.ram, m.root, q[..3]).None? by {
        ReachStep(m.ram, m.root, p, i);
      }
      assert m'.ram[c][q[3]] == 0;
    } else if Reach(m.ram, m.root, q[..3]).Some? {
      ReachedIsTable(m.ram, m.root, tables, q[..3]);
    }
  }

  /** One level of the walk: the tables stay a tree and no translation changes. */
  lemma NextTableKeeps(m: Machine, tables: map<nat, Slot>, f: nat, i: Index, p: Path)
    requires Inv(m, tables) && f in tables && |p| < 3 && Reach(m.ram, m.root, p) == Some(f)
    requires Child(m.ram, f, i).None? ==> !Full(m.frames.bits)
    ensures var (m', c) := NextTable(m, f, i);
      && Inv(m', GrowTables(m, tables, f, i)) && c in GrowTables(m, tables, f, i)
      && ReachExtended(m, m', p + [i], c) && SameLeaves(m, m')
      && (Child(m.ram, f, i).Some? ==> m' == m)
      && (Child(m.ram, f, i).None? ==> TableAdded(m, m', f, i, c) && c !in tables)
  {
    hide Link, Digit, AddressOf, HasFlag, Tree, RequestFrame;
    ReachedIsTable(m.ram, m.root, tables, p);
    var (m', c) := NextTable(m, f, i);
    if Child(m.ram, f, i).Some? {
      LinkTarget(m.ram, m.root, tables, f, i);
      ReachStep(m.ram, m.root, p, i);
    } else {
      NewTable(m, f, i);
      NewTableTree(m, m', tables, f, i, c);
      forall q: Path | |q| <= 3
        ensures Reach(m'.ram, m'.root, q) == if q == p + [i] then Some(c) else Reach(m.ram, m.root, q)
      {
        NewTableReach(m, m', tables, f, i, c, p, q);
      }
      forall q: PagePath
        ensures LeafEntry(m'.ram, m'.root, q) == LeafEntry(m.ram, m.root, q)
      {
        NewTableLeaf(m, m', tables, f, i, c, p, q);
      }
    }
  }

  // ----- the last level

  /** Writing a last-level entry keeps the tables and changes the translation of one page. */
  lemma PutLeafKeeps(m: Machine, tables: map<nat, Slot>, f: nat, p: PagePath, frame: Word)
    requires Inv(m, tables) && Reach(m.ram, m.root, p[..3]) == Some(f)
    ensures var m' := PutLeaf(m, f, p[3], frame);
      && Inv(m', tables)
      && (forall q: Path :: |q| <= 3 ==> Reach(m'.ram, m'.root, q) == Reach(m.ram, m.root, q))
      && (forall q: PagePath :: LeafEntry(m'.ram, m'.root, q) ==
            if q == p then Link(LeafEntry(m.ram, m.root, p), frame) else LeafEntry(m.ram, m.root, q))
      && (forall g :: 0 <= g < |m.ram| && g != f ==> m'.ram[g] == m.ram[g])
  {
    hide Link, Digit, AddressOf, HasFlag, Tree, Reach;
    var m' := PutLeaf(m, f, p[3], frame);
    ReachedIsTable(m.ram, m.root, tables, p[..3]);
    assert OneEntryChanged(m.ram, m'.ram, tables, f, p[3]);
    PutLeafTree(m, tables, f, p[3], frame);
    forall q: Path | |q| <= 3
      ensures Reach(m'.ram, m'.root, q) == Reach(m.ram, m.root, q)
    {
      ReachElsewhere(m.ram, m'.ram, m.root, tables, f, p[3], p[..3], q);
    }
    forall q: PagePath
      ensures LeafEntry(m'.ram, m'.root, q) ==
        if q == p then Link(LeafEntry(m.ram, m.root, p), frame) else LeafEntry(m.ram, m.root, q)
    {
      assert q == q[..3] + [q[3]] && p == p[..3] + [p[3]];
      if Reach(m.ram, m.root, q[..3]) == Some(f) {
        ReachInjective(m.ram, m.root, tables, q[..3], p[..3]);
      }
    }
  }

  lemma PutLeafTree(m: Machine, tables: map<nat, Slot>, f: nat, i: Index, frame: Word)
    requires Inv(m, tables) && f in tables && tables[f].depth == 3
    ensures Inv(PutLeaf(m, f, i, frame), tables)
  {
    hide Link, Digit, AddressOf, HasFlag, HintSound;
    var ram' := PutLeaf(m, f, i, frame).ram;
    forall g, j: Index | g in tables && tables[g].depth < 3 && Child(ram', g, j).Some?
      ensures var d := Child(ram', g, j).value;
        d in tables && tables[d] == Slot(tables[g].depth + 1, g, j) && HasFlag(ram'[g][j], PT_READWRITE)
    {
      assert Child(m.ram, g, j).Some?;
    }
    forall g | g in tables && g != m.root
      ensures Hangs(ram', tables, g)
    {
      assert Hangs(m.ram, tables, g);
    }
  }

  // ----- the whole walk

  /** The tables of m' are those of m and the lowest frames that were clear in m, now taken. */
  ghost predicate Grows(m: Machine, tables: map<nat, Slot>, m': Machine, tables': map<nat, Slot>, added: nat) {
    && m'.root == m.root && |m'.ram| == |m.ram| && |m'.frames.bits| == |m.frames.bits| == |m.ram|
    && (forall f :: f in tables ==> f in tables' && tables'[f] == tables[f])
    && (forall f :: f in tables' && f !in tables ==> f < |m.ram| && !m.frames.bits[f])
    && (forall f :: 0 <= f < |m.ram| ==> (m'.frames.bits[f] <==> m.frames.bits[f] || f in tables'))
    && (forall f :: 0 <= f < |m.ram| && f !in tables' ==> m'.ram[f] == m.ram[f])
    && Lowest(m.frames.bits, m'.frames.bits, added)
    && |tables'| == |tables| + added
    && CountClear(m'.frames.bits) == CountClear(m.frames.bits) - added
  }

  lemma AddedGrows(m: Machine, tables: map<nat, Slot>, f: nat, i: Index, m': Machine, c: nat, slot: Slot)
    requires forall g :: g in tables ==> g < |m.frames.bits| && m.frames.bits[g]
    requires f in tables && TableAdded(m, m', f, i, c)
    ensures Grows(m, tables, m', tables[c := slot], 1)
  {
    hide Link, HintSound, ZeroTable, CountSet, Lowest;
    CountAfterWrite(m.frames.bits, c, true);
    LowestFirst(m.frames.bits, c);
    assert c !in tables;
    assert tables[c := slot].Keys == tables.Keys + {c};
  }

  lemma GrowsOnce(m: Machine, tables: map<nat, Slot>, f: nat, i: Index, p: Path)
    requires Inv(m, tables) && f in tables && |p| < 3 && Reach(m.ram, m.root, p) == Some(f)
    requires Child(m.ram, f, i).None? ==> !Full(m.frames.bits)
    ensures Grows(m, tables, NextTable(m, f, i).0, GrowTables(m, tables, f, i),
                  if Child(m.ram, f, i).None? then 1 else 0)
  {
    hide Child, TreeDown, NextTable, CountSet, HintSound, Reach, Grows, TableAdded;
    NextTableKeeps(m, tables, f, i, p);
    if Child(m.ram, f, i).None? {
      var (m', c) := NextTable(m, f, i);
      AddedGrows(m, tables, f, i, m', c, Slot(tables[f].depth + 1, f, i));
    } else {
      GrowsNot(m, tables);
    }
  }

  lemma GrowsNot(m: Machine, tables: map<nat, Slot>)
    requires |m.ram| == |m.frames.bits| && forall g :: g in tables ==> g < |m.frames.bits| && m.frames.bits[g]
    ensures Grows(m, tables, m, tables, 0)
  {
    LowestNone(m.frames.bits);
  }

  lemma GrowsTwice(m: Machine, t: map<nat, Slot>, m1: Machine, t1: map<nat, Slot>, m2: Machine, t2: map<nat, Slot>,
                   a: nat, b: nat)
    requires Grows(m, t, m1, t1, a) && Grows(m1, t1, m2, t2, b)
    ensures Grows(m, t, m2, t2, a + b)
  {
    hide CountSet, Lowest;
    LowestTwice(m.frames.bits, m1.frames.bits, m2.frames.bits, a, b);
  }

  ghost function MapTables(m: Machine, tables: map<nat, Slot>, p: PagePath): map<nat, Slot> {
    var (m1, pdp) := NextTable(m, m.root, p[0]);
    var (m2, pd) := NextTable(m1, pdp, p[1]);
    GrowTables(m2, GrowTables(m1, GrowTables(m, tables, m.root, p[0]), pdp, p[1]), pd, p[2])
  }

  function One(b: bool): nat {
    if b then 1 else 0
  }

  /** The number of tables that a walk along p lacks. */
  function Missing(m: Machine, p: PagePath): nat {
    One(Reach(m.ram, m.root, p[..1]).None?) + One(Reach(m.ram, m.root, p[..2]).None?)
    + One(Reach(m.ram, m.root, p[..3]).None?)
  }

  /** MapPage up to the last-level table. */
  function Descend(m: Machine, p: PagePath): (Machine, nat) {
    var (m1, pdp) := NextTable(m, m.root, p[0]);
    var (m2, pd) := NextTable(m1, pdp, p[1]);
    NextTable(m2, pd, p[2])
  }

  /** The three tables on the path exist afterwards; no other path and no page changes. */
  ghost predicate Descended(m: Machine, m': Machine, p: PagePath, pt: nat) {
    && (forall q: Path :: |q| <= 3 && !(0 < |q| && q <= p) ==> Reach(m'.ram, m'.root, q) == Reach(m.ram, m.root, q))
    && (forall q: Path :: |q| <= 3 && q <= p ==> Reach(m'.ram, m'.root, q).Some?)
    && (forall q: Path :: |q| <= 3 && Reach(m.ram, m.root, q).Some? ==>
          Reach(m'.ram, m'.root, q) == Reach(m.ram, m.root, q))
    && Reach(m'.ram, m'.root, p[..3]) == Some(pt)
    && SameLeaves(m, m')
  }

  lemma NotFull(bits: seq<bool>)
    requires CountClear(bits) > 0
    ensures !Full(bits)
  {
    CountFull(bits);
  }

  /** One level, with the indices taken from a page's path. */
  lemma DescendStep(m: Machine, tables: map<nat, Slot>, f: nat, p: PagePath, k: nat)
    requires Inv(m, tables) && k < 3 && Reach(m.ram, m.root, p[..k]) == Some(f)
    requires CountClear(m.frames.bits) >= One(Reach(m.ram, m.root, p[..k + 1]).None?)
    ensures var (m', c) := NextTable(m, f, p[k]);
      var t' := GrowTables(m, tables, f, p[k]);
      && Inv(m', t') && c in t' && SameLeaves(m, m') && ReachExtended(m, m', p[..k + 1], c)
      && Grows(m, tables, m', t', One(Reach(m.ram, m.root, p[..k + 1]).None?))
      && (Reach(m.ram, m.root, p[..k + 1]).Some? ==> m' == m && Reach(m.ram, m.root, p[..k + 1]) == Some(c))
  {
    hide Inv, Grows, Child, Reach, NextTable, CountSet, Full;
    ReachedByInv(m, tables, p[..k]);
    ReachStep(m.ram, m.root, p[..k], p[k]);
    assert p[..k] + [p[k]] == p[..k + 1];
    if Child(m.ram, f, p[k]).None? {
      NotFull(m.frames.bits);
    }
    NextTableKeeps(m, tables, f, p[k], p[..k]);
    GrowsOnce(m, tables, f, p[k], p[..k]);
  }

  lemma ReachedByInv(m: Machine, tables: map<nat, Slot>, p: Path)
    requires Inv(m, tables) && |p| <= 3 && Reach(m.ram, m.root, p).Some?
    ensures Reach(m.ram, m.root, p).value in tables && tables[Reach(m.ram, m.root, p).value].depth == |p|
  {
    ReachedIsTable(m.ram, m.root, tables, p);
  }

  lemma ExtendedPrefixes(m: Machine, m': Machine, p: PagePath, k: nat, c: nat)
    requires 0 < k <= 3 && ReachExtended(m, m', p[..k], c)
    ensures Reach(m'.ram, m'.root, p[..k]) == Some(c)
    ensures forall j :: 0 <= j <= 3 && j != k ==> Reach(m'.ram, m'.root, p[..j]) == Reach(m.ram, m.root, p[..j])
  {
    forall j | 0 <= j <= 3 && j != k
      ensures Reach(m'.ram, m'.root, p[..j]) == Reach(m.ram, m.root, p[..j])
    {
      assert |p[..j]| != |p[..k]|;
    }
  }

  lemma ThreeExtensions(m: Machine, m1: Machine, m2: Machine, m3: Machine, p: PagePath, c1: nat, c2: nat, c3: nat)
    requires ReachExtended(m, m1, p[..1], c1) && SameLeaves(m, m1)
    requires ReachExtended(m1, m2, p[..2], c2) && SameLeaves(m1, m2)
    requires ReachExtended(m2, m3, p[..3], c3) && SameLeaves(m2, m3)
    requires Reach(m.ram, m.root, p[..1]) in {None, Some(c1)}
    requires Reach(m.ram, m.root, p[..2]) in {None, Some(c2)}
    requires Reach(m.ram, m.root, p[..3]) in {None, Some(c3)}
    ensures Descended(m, m3, p, c3)
  {
    hide LeafEntry;
    PrefixesOf(p);
    assert Reach(m3.ram, m3.root, []) == Some(m3.root);
    assert |p[..1]| == 1 && |p[..2]| == 2 && |p[..3]| == 3;
  }

  lemma DescendKeeps(m: Machine, tables: map<nat, Slot>, p: PagePath)
    requires Inv(m, tables) && CountClear(m.frames.bits) >= Missing(m, p)
    ensures var (m', pt) := Descend(m, p);
      && Inv(m', MapTables(m, tables, p)) && Descended(m, m', p, pt)
      && Grows(m, tables, m', MapTables(m, tables, p), Missing(m, p))
      && (Missing(m, p) == 0 ==> m' == m)
  {
    hide Inv, Grows, NextTable, GrowTables, CountSet, CountClear, ReachExtended, SameLeaves, Descended;
    var a1 := One(Reach(m.ram, m.root, p[..1]).None?);
    var a2 := One(Reach(m.ram, m.root, p[..2]).None?);
    var a3 := One(Reach(m.ram, m.root, p[..3]).None?);
    assert p[..0] == [];
    DescendStep(m, tables, m.root, p, 0);
    var (m1, pdp) := NextTable(m, m.root, p[0]);
    var t1 := GrowTables(m, tables, m.root, p[0]);
    ClearLeft(m, tables, m1, t1, a1);
    ExtendedPrefixes(m, m1, p, 1, pdp);
    DescendStep(m1, t1, pdp, p, 1);
    var (m2, pd) := NextTable(m1, pdp, p[1]);
    var t2 := GrowTables(m1, t1, pdp, p[1]);
    ClearLeft(m1, t1, m2, t2, a2);
    ExtendedPrefixes(m1, m2, p, 2, pd);
    DescendStep(m2, t2, pd, p, 2);
    var (m3, pt) := NextTable(m2, pd, p[2]);
    var t3 := GrowTables(m2, t2, pd, p[2]);
    GrowsTwice(m, tables, m1, t1, m2, t2, a1, a2);
    GrowsTwice(m, tables, m2, t2, m3, t3, a1 + a2, a3);
    ThreeExtensions(m, m1, m2, m3, p, pdp, pd, pt);
  }

  lemma PrefixesOf(p: PagePath)
    ensures forall q: Path :: |q| <= 3 && q <= p ==> q == [] || q == p[..1] || q == p[..2] || q == p[..3]
  {
  }

  lemma ClearLeft(m: Machine, t: map<nat, Slot>, m': Machine, t': map<nat, Slot>, added: nat)
    requires Grows(m, t, m', t', added)
    ensures CountClear(m'.frames.bits) == CountClear(m.frames.bits) - added && m'.root == m.root
  {
  }

  // ----- the tables and the bit set's own frames

  /** No table lies on the bit set. */
  ghost predicate Apart(tables: map<nat, Slot>, store: FrameRange) {
    forall f :: f in tables ==> !store.Has(f)
  }

  /** The new tables are the lowest clear frames. */
  lemma NewTables(m: Machine, t: map<nat, Slot>, m': Machine, t': map<nat, Slot>, added: nat, f: nat)
    requires Grows(m, t, m', t', added) && f < |m.ram| && f !in t
    ensures f in t' <==> !m.frames.bits[f] && ClearBelow(m.frames.bits, f) < added
  {
    hide CountSet, ClearBelow, CountClear;
    LowestAt(m.frames.bits, m'.frames.bits, added, f);
  }

  /** Tables that requests add stay off the bit set exactly when the requests pass it by. */
  lemma ApartMeaning(m: Machine, t: map<nat, Slot>, m': Machine, t': map<nat, Slot>, added: nat, store: FrameRange)
    requires Grows(m, t, m', t', added) && Apart(t, store)
    ensures Apart(t', store) <==> Spared(m.frames.bits, store, added)
  {
    hide CountSet, Spared, CountClear, Lowest;
    SparedMeaning(m.frames.bits, m'.frames.bits, store, added);
    if !Apart(t', store) {
      var f :| f in t' && store.Has(f);
      assert m'.frames.bits[f] != m.frames.bits[f];
    } else {
      forall f: nat | store.Has(f) && f < |m.frames.bits|
        ensures m'.frames.bits[f] == m.frames.bits[f]
      {
      }
    }
  }

  /** A walk finds the frames for the tables that it lacks, and none of them on the bit set. */
  ghost predicate Ready(m: Machine, store: FrameRange, p: PagePath) {
    CountClear(m.frames.bits) >= Missing(m, p) && Spared(m.frames.bits, store, Missing(m, p))
  }
}

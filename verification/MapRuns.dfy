// Runs of kernel operations on the page tables and the frame allocator: what every
// run keeps, and which translation it leaves.
module MapRuns {
  import opened Options
  import opened Bits
  import opened Paging
  import opened PageFrames
  import opened PageTables
  import opened Storages
  import opened MapPages
  import opened AddressSpaces

  // ----- mapping a page again

  lemma BothFlags(x: Word)
    ensures WithFlag(WithFlag(x, PT_PRESENT, true), PT_READWRITE, true) == 4 * (x / 4) + 3
  {
    hide PutDigit;
    var y := WithFlag(x, PT_PRESENT, true);
    PutDigitParts(x, 0, true);
    PutDigitParts(y, 1, true);
    PutDigitParts(y / 2, 0, true);
  }

  lemma ThreeParts(lo: nat, mid: nat, hi: nat)
    requires lo < MEM_FRAME_SIZE && mid < FRAME_LIMIT
    ensures var y := lo + MEM_FRAME_SIZE * mid + 0x10_0000_0000_0000 * hi;
      y % MEM_FRAME_SIZE == lo && y / 0x10_0000_0000_0000 == hi
  {
  }

  lemma DropTwoBits(lo: nat, mid: nat, hi: nat)
    ensures (lo + MEM_FRAME_SIZE * mid + 0x10_0000_0000_0000 * hi) / 4
      == lo / 4 + 0x400 * mid + 0x4_0000_0000_0000 * hi
  {
  }

  lemma LinkParts(w: Word, a: Word)
    ensures Link(w, a) == 4 * (w % MEM_FRAME_SIZE / 4) + 3 + MEM_FRAME_SIZE * (a % FRAME_LIMIT)
      + 0x10_0000_0000_0000 * (w / 0x10_0000_0000_0000)
    ensures Link(w, a) % MEM_FRAME_SIZE == 4 * (w % MEM_FRAME_SIZE / 4) + 3
    ensures Link(w, a) / 0x10_0000_0000_0000 == w / 0x10_0000_0000_0000
  {
    hide WithFlag;
    BothFlags(WithAddress(w, a));
    DropTwoBits(w % MEM_FRAME_SIZE, a % FRAME_LIMIT, w / 0x10_0000_0000_0000);
    ThreeParts(4 * (w % MEM_FRAME_SIZE / 4) + 3, a % FRAME_LIMIT, w / 0x10_0000_0000_0000);
  }

  /** Of two links stored one after the other only the second is left. */
  lemma LinkTwice(w: Word, a: Word, b: Word)
    ensures Link(Link(w, a), b) == Link(w, b)
  {
    hide Link;
    LinkParts(w, a);
    LinkParts(w, b);
    LinkParts(Link(w, a), b);
    ThreeAgain(w % MEM_FRAME_SIZE / 4);
  }

  lemma ThreeAgain(k: nat)
    ensures 4 * ((4 * k + 3) / 4) + 3 == 4 * k + 3
  {
  }

  /** The second of two calls for one page decides, and takes no frame. */
  lemma MapPageTwice(m: Machine, tables: map<nat, Slot>, p: PagePath, a: Word, b: Word)
    requires Inv(m, tables) && CountClear(m.frames.bits) >= Missing(m, p)
    ensures MapPage(MapPage(m, p, a), p, b) == MapPage(m, p, b)
  {
    hide Inv, Grows, Link, MapTables, CountClear, LeafEntry, Reach, NextTable;
    DescendKeeps(m, tables, p);
    var (m3, pt) := Descend(m, p);
    var m' := PutLeaf(m3, pt, p[3], a);
    var t := MapTables(m, tables, p);
    PutLeafKeeps(m3, t, pt, p, a);
    assert |p[..1]| == 1 && |p[..2]| == 2 && |p[..3]| == 3;
    assert Missing(m', p) == 0;
    assert m' == MapPage(m, p, a);
    DescendKeeps(m', t, p);
    assert Descend(m', p) == (m', pt);
    if pt < |m3.ram| {
      LinkTwice(m3.ram[pt][p[3]], a, b);
      assert m'.ram[pt][p[3] := Link(m'.ram[pt][p[3]], b)] == m3.ram[pt][p[3] := Link(m3.ram[pt][p[3]], b)];
    }
  }

  /** Repeating a call changes nothing: no entry, no frame, no counter. */
  lemma MapMemoryIdempotent(m: Machine, tables: map<nat, Slot>, v: nat, p: nat)
    requires Inv(m, tables) && p < U64_LIMIT && CountClear(m.frames.bits) >= Missing(m, Indices(v))
    ensures MapMemory(MapMemory(m, v, p), v, p) == MapMemory(m, v, p)
  {
    MapPageTwice(m, tables, Indices(v), p / MEM_FRAME_SIZE, p / MEM_FRAME_SIZE);
  }

  // ----- runs

  /** The operations that run after boot. Store writes a word through some mapping. */
  datatype KernelOp =
    | Map(v: nat, p: Word)
    | RequestPage
    | LockPage(f: nat)
    | FreePage(f: nat)
    | Store(f: nat, i: Index, w: Word)

  ghost predicate IsTable(m: Machine, f: nat) {
    exists q: Path :: |q| <= 3 && Reach(m.ram, m.root, q) == Some(f)
  }

  /** The first frame behind the bit set is not named (see PageFrames.InRange), and words stored are in memory. */
  predicate Named(m: Machine, op: KernelOp) {
    match op
    case LockPage(f) => f != |m.frames.bits|
    case FreePage(f) => f != |m.frames.bits|
    case Store(f, _, _) => f < |m.ram|
    case _ => true
  }

  /**
   * Maps find the frames they need, and nobody writes to a table or to the bit set, or
   * frees a table.  `store` are the frames that hold the bit set; what is proved of them
   * holds of any range of frames, such as those past the end of memory (PastMemory).
   */
  ghost predicate Allowed(m: Machine, store: FrameRange, op: KernelOp) {
    Named(m, op) &&
    match op
    case Map(v, _) => CountClear(m.frames.bits) >= Missing(m, Indices(v))
    case FreePage(f) => !IsTable(m, f)
    case Store(f, _, _) => !IsTable(m, f) && !store.Has(f)
    case _ => true
  }

  /** Besides, no map puts a table on the bit set. */
  ghost predicate Legal(m: Machine, store: FrameRange, op: KernelOp) {
    Allowed(m, store, op) && (op.Map? ==> Spared(m.frames.bits, store, Missing(m, Indices(op.v))))
  }

  ghost function Execute(m: Machine, op: KernelOp): Machine
    requires m.frames.hint <= |m.frames.bits| && Named(m, op)
  {
    match op
    case Map(v, p) => MapMemory(m, v, p)
    case RequestPage => m.(frames := RequestFrame(m.frames).0)
    case LockPage(f) => m.(frames := LockFrame(m.frames, f))
    case FreePage(f) => m.(frames := FreeFrame(m.frames, f))
    case Store(f, i, w) => m.(ram := m.ram[f := m.ram[f][i := w]])
  }

  /** m' is a state that the operations lead to from m, each legal when it runs. */
  ghost predicate Leads(m: Machine, store: FrameRange, ops: seq<KernelOp>, m': Machine)
    decreases |ops|
  {
    if ops == [] then m' == m
    else m.frames.hint <= |m.frames.bits| && Legal(m, store, ops[0]) && Leads(Execute(m, ops[0]), store, ops[1..], m')
  }

  lemma LegalNamed(m: Machine, store: FrameRange, op: KernelOp)
    requires Legal(m, store, op)
    ensures Named(m, op)
  {
  }

  /** The tables after an operation. */
  ghost function TablesAfter(m: Machine, tables: map<nat, Slot>, op: KernelOp): map<nat, Slot> {
    if op.Map? then MapTables(m, tables, Indices(op.v)) else tables
  }

  lemma TableIffReached(m: Machine, tables: map<nat, Slot>, f: nat)
    requires Inv(m, tables)
    ensures IsTable(m, f) <==> f in tables
  {
    hide HintSound, Reach;
    if f in tables {
      var q := TableIsReached(m.ram, m.root, tables, f);
    } else if IsTable(m, f) {
      var q: Path :| |q| <= 3 && Reach(m.ram, m.root, q) == Some(f);
      ReachedIsTable(m.ram, m.root, tables, q);
    }
  }

  /** Two memories that agree on the tables have the same tree and the same walks. */
  lemma {:induction false} SameWalk(ram: seq<Table>, ram': seq<Table>, root: nat, tables: map<nat, Slot>, q: Path)
    requires Tree(ram, root, tables) && |ram'| == |ram| && |q| <= 3
    requires forall g :: g in tables && g < |ram| ==> ram'[g] == ram[g]
    ensures Reach(ram', root, q) == Reach(ram, root, q)
    decreases |q|
  {
    hide Tree, HasFlag, AddressOf;
    if |q| > 0 {
      SameWalk(ram, ram', root, tables, q[..|q| - 1]);
      if Reach(ram, root, q[..|q| - 1]).Some? {
        ReachedIsTable(ram, root, tables, q[..|q| - 1]);
      }
    }
  }

  lemma SameTree(ram: seq<Table>, ram': seq<Table>, root: nat, tables: map<nat, Slot>)
    requires Tree(ram, root, tables) && |ram'| == |ram|
    requires forall g :: g in tables && g < |ram| ==> ram'[g] == ram[g]
    ensures Tree(ram', root, tables)
  {
    hide HasFlag, AddressOf;
    forall g, j: Index | g in tables && tables[g].depth < 3 && g < |ram'|
      ensures !HasFlag(ram'[g][j], PT_LARGEPAGES)
    {
      assert !HasFlag(ram[g][j], PT_LARGEPAGES);
    }
    forall g, j: Index | g in tables && tables[g].depth < 3 && Child(ram', g, j).Some?
      ensures var d := Child(ram', g, j).value;
        d in tables && tables[d] == Slot(tables[g].depth + 1, g, j) && HasFlag(ram'[g][j], PT_READWRITE)
    {
      assert Child(ram, g, j).Some?;
    }
    forall g | g in tables && g != root
      ensures Hangs(ram', tables, g)
    {
      assert Hangs(ram, tables, g);
    }
  }

  /** Every legal operation keeps the invariant, and the tables off the bit set. */
  lemma StepKeepsInv(m: Machine, tables: map<nat, Slot>, store: FrameRange, op: KernelOp)
    requires Inv(m, tables) && Apart(tables, store) && Legal(m, store, op)
    ensures Inv(Execute(m, op), TablesAfter(m, tables, op)) && Apart(TablesAfter(m, tables, op), store)
    ensures forall f :: f in tables ==> f in TablesAfter(m, tables, op)
  {
    assert forall f :: f in tables ==> f < |m.ram|;
    hide Tree, MapMemory, Wrap, CountClear, Missing, Reach, IsTable, Indices, MapTables, Spared, Lowest, Apart;
    match op
    case Map(v, p) =>
      MapMemoryCorrect(m, tables, v, p);
      MapPageKeeps(m, tables, Indices(v), p / MEM_FRAME_SIZE);
      ApartMeaning(m, tables, Execute(m, op), TablesAfter(m, tables, op), Missing(m, Indices(v)), store);
    case RequestPage =>
    case LockPage(f) =>
    case FreePage(f) =>
      TableIffReached(m, tables, f);
    case Store(f, i, w) =>
      TableIffReached(m, tables, f);
      SameTree(m.ram, Execute(m, op).ram, m.root, tables);
  }

  /**
   * Safety over whole runs: the tables stay a tree, taken in the bit set and off its
   * frames, and tables stay tables.
   */
  lemma {:induction false} RunKeepsInv(m: Machine, tables: map<nat, Slot>, store: FrameRange, ops: seq<KernelOp>,
                                       m': Machine)
    returns (tables': map<nat, Slot>)
    requires Inv(m, tables) && Apart(tables, store) && Leads(m, store, ops, m')
    ensures Inv(m', tables') && Apart(tables', store) && forall f :: f in tables ==> f in tables'
    decreases |ops|
  {
    hide Inv, Execute, Legal, TablesAfter, Apart, Named;
    if ops == [] {
      tables' := tables;
    } else {
      LegalNamed(m, store, ops[0]);
      StepKeepsInv(m, tables, store, ops[0]);
      tables' := RunKeepsInv(Execute(m, ops[0]), TablesAfter(m, tables, ops[0]), store, ops[1..], m');
    }
  }

  /** Each table but the root is pointed to by exactly one entry of the upper levels. */
  ghost predicate OneParentEach(m: Machine) {
    forall q: Path, r: Path ::
      (|q| <= 3 && |r| <= 3 && Reach(m.ram, m.root, q).Some? && Reach(m.ram, m.root, q) == Reach(m.ram, m.root, r))
      ==> q == r
  }

  /**
   * After any run from a machine in the invariant: no two paths share a table, every
   * table is taken and off the bit set, and a request never returns a frame that was
   * a table at any earlier moment.
   */
  lemma TablesNeverHandedOut(m: Machine, tables: map<nat, Slot>, store: FrameRange, ops: seq<KernelOp>, m': Machine, f: nat)
    requires Inv(m, tables) && Apart(tables, store) && Leads(m, store, ops, m') && IsTable(m, f)
    ensures !store.Has(f) && OneParentEach(m') && IsTable(m', f) && HintSound(m'.frames)
    ensures f < |m'.frames.bits| && m'.frames.bits[f]
    ensures !Full(m'.frames.bits) ==> RequestFrame(m'.frames).1 != f * MEM_FRAME_SIZE
  {
    hide Leads, Reach;
    var tables' := RunKeepsInv(m, tables, store, ops, m');
    TableIffReached(m, tables, f);
    TableIffReached(m', tables', f);
    forall q: Path, r: Path | |q| <= 3 && |r| <= 3 && Reach(m'.ram, m'.root, q).Some?
      && Reach(m'.ram, m'.root, q) == Reach(m'.ram, m'.root, r)
      ensures q == r
    {
      ReachInjective(m'.ram, m'.root, tables', q, r);
    }
  }

  // ----- the translation that a run leaves

  /** The frame of the last Map of page n in a run, if there is one. */
  function LastMap(ops: seq<KernelOp>, n: nat): Option<nat> {
    if ops == [] then None
    else
      var last := ops[|ops| - 1];
      if last.Map? && PageNumber(last.v) == n then Some(last.p / MEM_FRAME_SIZE % FRAME_LIMIT)
      else LastMap(ops[..|ops| - 1], n)
  }

  lemma {:induction false} LastMapFirst(ops: seq<KernelOp>, n: nat)
    requires ops != []
    ensures LastMap(ops, n) == if LastMap(ops[1..], n).Some? then LastMap(ops[1..], n)
      else if ops[0].Map? && PageNumber(ops[0].v) == n then Some(ops[0].p / MEM_FRAME_SIZE % FRAME_LIMIT) else None
    decreases |ops|
  {
    hide PageNumber;
    if |ops| > 1 {
      LastMapFirst(ops[..|ops| - 1], n);
      assert ops[..|ops| - 1][1..] == ops[1..][..|ops| - 2];
    }
  }

  lemma StepTranslates(m: Machine, tables: map<nat, Slot>, store: FrameRange, op: KernelOp, w: nat)
    requires Inv(m, tables) && Legal(m, store, op)
    ensures Translate(Execute(m, op), Indices(w)) ==
      if op.Map? && PageNumber(op.v) == PageNumber(w) then Some(Page(op.p / MEM_FRAME_SIZE % FRAME_LIMIT, true))
      else Translate(m, Indices(w))
  {
    hide MapMemory, Wrap, CountClear, Missing, Reach, IsTable, Indices, MapTables, PageNumber, Tree, Translate, LeafEntry;
    hide Spared;
    match op
    case Map(v, p) =>
      MapMemoryCorrect(m, tables, v, p);
      IndicesArePageNumber(v, w);
    case Store(f, i, x) =>
      TableIffReached(m, tables, f);
      StoreTranslates(m, tables, f, i, x, Indices(w));
    case _ =>
      OnlyFramesChange(m, Execute(m, op).frames, Indices(w));
  }

  lemma OnlyFramesChange(m: Machine, frames: Frames, q: PagePath)
    ensures Translate(m.(frames := frames), q) == Translate(m, q)
  {
  }

  lemma StoreTranslates(m: Machine, tables: map<nat, Slot>, f: nat, i: Index, x: Word, q: PagePath)
    requires Inv(m, tables) && f < |m.ram| && f !in tables
    ensures Translate(m.(ram := m.ram[f := m.ram[f][i := x]]), q) == Translate(m, q)
  {
    hide HintSound, Reach, Translate;
    var m' := m.(ram := m.ram[f := m.ram[f][i := x]]);
    SameTree(m.ram, m'.ram, m.root, tables);
    SameWalk(m.ram, m'.ram, m.root, tables, q[..3]);
    if Reach(m.ram, m.root, q[..3]).Some? {
      ReachedIsTable(m.ram, m.root, tables, q[..3]);
    }
    SameTranslation(m, tables, m', tables, q);
  }

  /**
   * The translation after a run: each page goes where its last Map put it, writable;
   * pages that the run never maps translate as they did at the start.
   */
  lemma {:induction false} RunTranslates(m: Machine, tables: map<nat, Slot>, store: FrameRange, ops: seq<KernelOp>,
                                         m': Machine, w: nat)
    requires Inv(m, tables) && Apart(tables, store) && Leads(m, store, ops, m')
    ensures Translate(m', Indices(w)) ==
      match LastMap(ops, PageNumber(w))
      case Some(frame) => Some(Page(frame, true))
      case None => Translate(m, Indices(w))
    decreases |ops|
  {
    hide Inv, Execute, Legal, TablesAfter, Translate, Indices, PageNumber, LastMap, Apart;
    if ops == [] {
      assert LastMap(ops, PageNumber(w)) == None by { NoLastMap(PageNumber(w)); }
    } else {
      StepKeepsInv(m, tables, store, ops[0]);
      LegalNamed(m, store, ops[0]);
      StepTranslates(m, tables, store, ops[0], w);
      RunTranslates(Execute(m, ops[0]), TablesAfter(m, tables, ops[0]), store, ops[1..], m', w);
      LastMapFirst(ops, PageNumber(w));
    }
  }

  lemma NoLastMap(n: nat)
    ensures LastMap([], n) == None
  {
  }

  // ----- how long the bit set stays out of reach

  /** As Leads, without asking that maps pass the bit set by. */
  ghost predicate LeadsLoosely(m: Machine, store: FrameRange, ops: seq<KernelOp>, m': Machine)
    decreases |ops|
  {
    if ops == [] then m' == m
    else
      && m.frames.hint <= |m.frames.bits| && Allowed(m, store, ops[0])
      && LeadsLoosely(Execute(m, ops[0]), store, ops[1..], m')
  }

  /** The most clear frames that an operation takes. */
  ghost function Takes(m: Machine, op: KernelOp): nat {
    match op
    case Map(v, _) => Missing(m, Indices(v))
    case RequestPage => 1
    case LockPage(_) => 1
    case _ => 0
  }

  /** The most clear frames that a run takes. */
  ghost function Budget(m: Machine, ops: seq<KernelOp>): nat
    decreases |ops|
  {
    if ops == [] then 0
    else if m.frames.hint <= |m.frames.bits| && Named(m, ops[0])
    then Takes(m, ops[0]) + Budget(Execute(m, ops[0]), ops[1..])
    else 0
  }

  lemma ClearBelowWrite(bits: seq<bool>, f: nat, v: bool, n: nat)
    requires f < |bits| && n <= |bits|
    ensures ClearBelow(bits[f := v], n)
      == ClearBelow(bits, n) + (if f < n && bits[f] then 1 else 0) - (if f < n && v then 1 else 0)
  {
    hide CountSet;
    if f < n {
      assert bits[f := v][..n] == bits[..n][f := v];
      CountAfterWrite(bits[..n], f, v);
    } else {
      assert bits[f := v][..n] == bits[..n];
    }
  }

  lemma RequestLowest(s: Frames)
    requires HintSound(s)
    ensures |RequestFrame(s).0.bits| == |s.bits|
    ensures Full(s.bits) ==> RequestFrame(s).0 == s
    ensures !Full(s.bits) ==> Lowest(s.bits, RequestFrame(s).0.bits, 1)
  {
    hide Wrap, Lowest;
    var f := FirstClear(s.bits, s.hint);
    if f < |s.bits| {
      LowestFirst(s.bits, f);
    }
  }

  /** An operation uses up at most what it takes. */
  lemma StepTakes(m: Machine, tables: map<nat, Slot>, store: FrameRange, op: KernelOp, n: nat)
    requires Inv(m, tables) && Allowed(m, store, op) && n <= |m.frames.bits|
    ensures |Execute(m, op).frames.bits| == |m.frames.bits|
    ensures ClearBelow(Execute(m, op).frames.bits, n) + Takes(m, op) >= ClearBelow(m.frames.bits, n)
  {
    hide Tree, Wrap, CountClear, Missing, Reach, IsTable, Indices, MapTables, ClearBelow, MapPage, RequestFrame, Full;
    hide Lowest;
    match op
    case Map(v, p) =>
      MapPageKeeps(m, tables, Indices(v), p / MEM_FRAME_SIZE);
      LowestLeaves(m.frames.bits, Execute(m, op).frames.bits, Missing(m, Indices(v)), n);
    case RequestPage =>
      RequestLowest(m.frames);
      if !Full(m.frames.bits) {
        LowestLeaves(m.frames.bits, Execute(m, op).frames.bits, 1, n);
      }
    case LockPage(f) =>
      if f < |m.frames.bits| {
        ClearBelowWrite(m.frames.bits, f, true, n);
      }
    case FreePage(f) =>
      if f < |m.frames.bits| {
        ClearBelowWrite(m.frames.bits, f, false, n);
      }
    case Store(f, i, w) =>
  }

  /**
   * With as many clear frames below the bit set as a run takes, none of its maps puts
   * a table there; the clear frames that it did not take are left, and so many further
   * requests pass the bit set by.
   */
  lemma {:induction false} BudgetSuffices(m: Machine, tables: map<nat, Slot>, store: FrameRange, ops: seq<KernelOp>,
                                          m': Machine)
    requires Inv(m, tables) && Apart(tables, store) && LeadsLoosely(m, store, ops, m')
    requires store.first <= |m.frames.bits| && Budget(m, ops) <= ClearBelow(m.frames.bits, store.first)
    ensures Leads(m, store, ops, m') && |m'.frames.bits| == |m.frames.bits|
    ensures ClearBelow(m'.frames.bits, store.first) + Budget(m, ops) >= ClearBelow(m.frames.bits, store.first)
    ensures Spared(m'.frames.bits, store, ClearBelow(m.frames.bits, store.first) - Budget(m, ops))
    decreases |ops|
  {
    hide Inv, Execute, Allowed, TablesAfter, ClearBelow, Apart, AllTaken, Missing, Indices;
    if ops != [] {
      var op := ops[0];
      assert Legal(m, store, op);
      LegalNamed(m, store, op);
      StepTakes(m, tables, store, op, store.first);
      StepKeepsInv(m, tables, store, op);
      BudgetSuffices(Execute(m, op), TablesAfter(m, tables, op), store, ops[1..], m');
    }
  }

  lemma StepKeepsTaken(m: Machine, tables: map<nat, Slot>, store: FrameRange, op: KernelOp, f: nat)
    requires Inv(m, tables) && Allowed(m, store, op) && f < |m.frames.bits| && m.frames.bits[f]
    requires op.FreePage? ==> op.f != f
    ensures f < |Execute(m, op).frames.bits| && Execute(m, op).frames.bits[f]
  {
    hide Tree, Wrap, CountClear, Missing, Reach, IsTable, Indices, MapTables, MapPage;
    if op.Map? {
      MapPageKeeps(m, tables, Indices(op.v), op.p / MEM_FRAME_SIZE);
    }
  }

  /** Once the bit set's frames are taken, a run that frees none of them needs no budget. */
  lemma {:induction false} LockedStorageStays(m: Machine, tables: map<nat, Slot>, store: FrameRange, ops: seq<KernelOp>,
                                              m': Machine)
    requires Inv(m, tables) && Apart(tables, store) && LeadsLoosely(m, store, ops, m')
    requires AllTaken(m.frames.bits, store) && forall op <- ops :: op.FreePage? ==> !store.Has(op.f)
    ensures Leads(m, store, ops, m') && AllTaken(m'.frames.bits, store)
    decreases |ops|
  {
    hide Inv, Execute, Allowed, TablesAfter, ClearBelow, Apart, Missing, Indices;
    if ops != [] {
      var op := ops[0];
      assert Legal(m, store, op);
      LegalNamed(m, store, op);
      StepTakes(m, tables, store, op, 0);
      forall f: nat | store.Has(f) && f < |Execute(m, op).frames.bits|
        ensures Execute(m, op).frames.bits[f]
      {
        StepKeepsTaken(m, tables, store, op, f);
      }
      StepKeepsInv(m, tables, store, op);
      LockedStorageStays(Execute(m, op), TablesAfter(m, tables, op), store, ops[1..], m');
    }
  }
}

// What the page frame allocator does, as functions on its state
// (rizzos/src/paging/page_frame_allocator.c).  PageFrameAllocator.dfy carries the
// code and proves that it computes these functions.
module PageFrames {
  import opened Bits
  import opened Paging

  /**
   * bits[f] tells that frame f is taken; hint is where the next search starts;
   * the counters are in bytes, modulo 2^64.  A frame without a bit may be named as
   * well, and nothing changes; only the first one behind the bits is another matter
   * (see InRange).
   */
  datatype Frames = Frames(bits: seq<bool>, hint: nat, free: nat, reserved: nat, used: nat)

  function LockFrame(s: Frames, f: nat): Frames {
    if f >= |s.bits| || s.bits[f] then s
    else s.(bits := s.bits[f := true], free := Wrap(s.free - MEM_FRAME_SIZE), used := Wrap(s.used + MEM_FRAME_SIZE))
  }

  function FreeFrame(s: Frames, f: nat): Frames {
    if f >= |s.bits| || !s.bits[f] then s
    else s.(bits := s.bits[f := false], free := Wrap(s.free + MEM_FRAME_SIZE), used := Wrap(s.used - MEM_FRAME_SIZE),
            hint := if s.hint > f then f else s.hint)
  }

  function ReserveFrame(s: Frames, f: nat): Frames {
    if f >= |s.bits| || s.bits[f] then s
    else s.(bits := s.bits[f := true], free := Wrap(s.free - MEM_FRAME_SIZE),
            reserved := Wrap(s.reserved + MEM_FRAME_SIZE))
  }

  function UnreserveFrame(s: Frames, f: nat): Frames {
    if f >= |s.bits| || !s.bits[f] then s
    else s.(bits := s.bits[f := false], free := Wrap(s.free + MEM_FRAME_SIZE),
            reserved := Wrap(s.reserved - MEM_FRAME_SIZE), hint := if s.hint > f then f else s.hint)
  }

  /** The first clear bit at or after i, or the number of bits. */
  function FirstClear(bits: seq<bool>, i: nat): (f: nat)
    requires i <= |bits|
    ensures i <= f <= |bits|
    ensures forall j :: i <= j < f ==> bits[j]
    ensures f < |bits| ==> !bits[f]
    decreases |bits| - i
  {
    if i == |bits| || !bits[i] then i else FirstClear(bits, i + 1)
  }

  /** The state after a request, and the address returned (0 is the null pointer). */
  function RequestFrame(s: Frames): (Frames, nat)
    requires s.hint <= |s.bits|
  {
    var f := FirstClear(s.bits, s.hint);
    if f < |s.bits| then (LockFrame(s, f).(hint := f), f * MEM_FRAME_SIZE) else (s, 0)
  }

  // ----- operations and runs

  datatype Op = Lock(f: nat) | Free(f: nat) | Reserve(f: nat) | Unreserve(f: nat) | Request

  /**
   * The frame named is not the first one behind the bit set, for which the source
   * changes the byte behind the set and the counters.
   */
  predicate InRange(op: Op, n: nat) {
    op.Request? || op.f != n
  }

  function Step(s: Frames, op: Op): (s': Frames)
    requires InRange(op, |s.bits|) && s.hint <= |s.bits|
    ensures |s'.bits| == |s.bits| && s'.hint <= |s'.bits|
  {
    match op
    case Lock(f) => LockFrame(s, f)
    case Free(f) => FreeFrame(s, f)
    case Reserve(f) => ReserveFrame(s, f)
    case Unreserve(f) => UnreserveFrame(s, f)
    case Request => RequestFrame(s).0
  }

  function Run(s: Frames, ops: seq<Op>): (s': Frames)
    requires s.hint <= |s.bits| && forall op <- ops :: InRange(op, |s.bits|)
    ensures |s'.bits| == |s.bits| && s'.hint <= |s'.bits|
    decreases |ops|
  {
    if ops == [] then s else Run(Step(s, ops[0]), ops[1..])
  }

  // ----- the hint

  ghost predicate HintSound(s: Frames) {
    s.hint <= |s.bits| && forall j :: 0 <= j < s.hint ==> s.bits[j]
  }

  ghost predicate Full(bits: seq<bool>) {
    forall j :: 0 <= j < |bits| ==> bits[j]
  }

  /** The search never passes a clear frame, in any state that a run reaches. */
  lemma {:induction false} HintNeverSkips(s: Frames, ops: seq<Op>)
    requires HintSound(s) && forall op <- ops :: InRange(op, |s.bits|)
    ensures HintSound(Run(s, ops))
    decreases |ops|
  {
    if ops != [] {
      assert HintSound(Step(s, ops[0]));
      HintNeverSkips(Step(s, ops[0]), ops[1..]);
    }
  }

  /** A request takes the lowest clear frame of the whole bit set and no other. */
  lemma RequestTakesLowest(s: Frames, f: nat)
    requires HintSound(s) && f < |s.bits| && !s.bits[f]
    requires forall j :: 0 <= j < f ==> s.bits[j]
    ensures RequestFrame(s).1 == f * MEM_FRAME_SIZE
    ensures RequestFrame(s).0.bits == s.bits[f := true]
  {
    assert FirstClear(s.bits, s.hint) == f;
  }

  /** With frame 0 taken, a request returns null exactly when every frame is taken. */
  lemma NullMeansFull(s: Frames)
    requires HintSound(s) && |s.bits| > 0 && s.bits[0]
    ensures RequestFrame(s).1 == 0 <==> Full(s.bits)
    ensures Full(s.bits) ==> RequestFrame(s).0 == s
  {
    var f := FirstClear(s.bits, s.hint);
    if f < |s.bits| {
      assert f > 0;
    }
  }

  predicate Releases(op: Op, f: nat) {
    (op.Free? || op.Unreserve?) && op.f == f
  }

  /** A frame that nobody releases stays taken. */
  lemma {:induction false} StaysTaken(s: Frames, ops: seq<Op>, f: nat)
    requires s.hint <= |s.bits| && forall op <- ops :: InRange(op, |s.bits|)
    requires f < |s.bits| && s.bits[f]
    requires forall op <- ops :: !Releases(op, f)
    ensures Run(s, ops).bits[f]
    decreases |ops|
  {
    if ops != [] {
      assert ops[0] in ops;
      StaysTaken(Step(s, ops[0]), ops[1..], f);
    }
  }

  /** No frame is handed out twice unless it is released in between. */
  lemma NeverTwice(s: Frames, ops: seq<Op>)
    requires s.hint <= |s.bits| && forall op <- ops :: InRange(op, |s.bits|)
    requires FirstClear(s.bits, s.hint) < |s.bits|
    requires forall op <- ops :: !Releases(op, FirstClear(s.bits, s.hint))
    ensures var (s1, first) := RequestFrame(s);
      var s2 := Run(s1, ops);
      FirstClear(s2.bits, s2.hint) < |s2.bits| ==> RequestFrame(s2).1 != first
  {
    StaysTaken(RequestFrame(s).0, ops, FirstClear(s.bits, s.hint));
  }

  // ----- the counters

  function CountSet(bits: seq<bool>): (n: nat)
    ensures n <= |bits|
  {
    if bits == [] then 0 else CountSet(bits[..|bits| - 1]) + (if bits[|bits| - 1] then 1 else 0)
  }

  function CountClear(bits: seq<bool>): nat {
    |bits| - CountSet(bits)
  }

  lemma {:induction false} CountAfterWrite(bits: seq<bool>, f: nat, v: bool)
    requires f < |bits|
    ensures CountSet(bits[f := v]) == CountSet(bits) + (if v then 1 else 0) - (if bits[f] then 1 else 0)
  {
    var n := |bits| - 1;
    if f == n {
      assert bits[f := v][..n] == bits[..n];
    } else {
      CountAfterWrite(bits[..n], f, v);
      assert bits[f := v][..n] == bits[..n][f := v];
    }
  }

  lemma {:induction false} CountFull(bits: seq<bool>)
    ensures CountClear(bits) == 0 <==> Full(bits)
  {
    if bits != [] {
      var n := |bits| - 1;
      CountFull(bits[..n]);
      if Full(bits) {
        assert Full(bits[..n]);
      } else if bits[n] {
        var j :| 0 <= j < |bits| && !bits[j];
        assert !bits[..n][j];
      }
    }
  }

  /** The three counters add up to the total, and the taken ones match the bits. */
  ghost predicate Balanced(s: Frames, total: nat) {
    && Wrap(s.free + s.used + s.reserved) == Wrap(total)
    && Wrap(s.used + s.reserved) == Wrap(MEM_FRAME_SIZE * CountSet(s.bits))
  }

  /** Bytes that move between free and one of the other counters. */
  lemma BytesMove(free: nat, taken: nat, other: nat, delta: int, total: nat, count: nat)
    requires Wrap(free + taken + other) == Wrap(total)
    requires Wrap(taken + other) == Wrap(MEM_FRAME_SIZE * count)
    ensures Wrap(Wrap(free - delta) + Wrap(taken + delta) + other) == Wrap(total)
    ensures Wrap(Wrap(taken + delta) + other) == Wrap(MEM_FRAME_SIZE * count + delta)
  {
    hide Wrap;
    WrapLate(free - delta, Wrap(taken + delta) + other);
    WrapLate(taken + delta, free - delta + other);
    WrapLate(taken + delta, other);
    WrapLate(taken + other, delta);
    WrapLate(MEM_FRAME_SIZE * count, delta);
  }

  lemma BalancedStep(s: Frames, op: Op, total: nat)
    requires s.hint <= |s.bits| && InRange(op, |s.bits|) && Balanced(s, total)
    ensures Balanced(Step(s, op), total)
  {
    hide CountSet, Wrap;
    var f := if op.Request? then FirstClear(s.bits, s.hint) else op.f;
    if f < |s.bits| {
      CountAfterWrite(s.bits, f, true);
      CountAfterWrite(s.bits, f, false);
      var n := CountSet(s.bits);
      BytesMove(s.free, s.used, s.reserved, MEM_FRAME_SIZE, total, n);
      BytesMove(s.free, s.reserved, s.used, MEM_FRAME_SIZE, total, n);
      BytesMove(s.free, s.used, s.reserved, -0x1000, total, n);
      BytesMove(s.free, s.reserved, s.used, -0x1000, total, n);
    }
  }

  /** Conservation: no run of operations creates or loses memory. */
  lemma {:induction false} BalancedRun(s: Frames, ops: seq<Op>, total: nat)
    requires s.hint <= |s.bits| && (forall op <- ops :: InRange(op, |s.bits|)) && Balanced(s, total)
    ensures Balanced(Run(s, ops), total)
    decreases |ops|
  {
    if ops != [] {
      BalancedStep(s, ops[0], total);
      BalancedRun(Step(s, ops[0]), ops[1..], total);
    }
  }

  // ----- the counters without wrap-around

  /** The frames that were taken by Lock or Request, after one more operation. */
  ghost function Locked(s: Frames, locked: set<nat>, op: Op): set<nat>
    requires s.hint <= |s.bits|
  {
    match op
    case Lock(f) => if f < |s.bits| && !s.bits[f] then locked + {f} else locked
    case Request => var f := FirstClear(s.bits, s.hint); if f < |s.bits| then locked + {f} else locked
    case Free(f) => locked - {f}
    case Reserve(f) => locked
    case Unreserve(f) => locked
  }

  /** The frames locked and not freed, after a run. */
  ghost function LockedRun(s: Frames, locked: set<nat>, ops: seq<Op>): set<nat>
    requires s.hint <= |s.bits| && forall op <- ops :: InRange(op, |s.bits|)
    decreases |ops|
  {
    if ops == [] then locked else LockedRun(Step(s, ops[0]), Locked(s, locked, ops[0]), ops[1..])
  }

  /** Free is used on locked frames only and Unreserve on reserved ones only. */
  ghost predicate Matched(s: Frames, locked: set<nat>, op: Op) {
    match op
    case Free(f) => f < |s.bits| && s.bits[f] ==> f in locked
    case Unreserve(f) => f !in locked
    case _ => true
  }

  ghost predicate Exact(s: Frames, locked: set<nat>) {
    && (forall f <- locked :: f < |s.bits| && s.bits[f])
    && s.used == MEM_FRAME_SIZE * |locked|
    && s.used + s.reserved == MEM_FRAME_SIZE * CountSet(s.bits)
    && s.free < U64_LIMIT
  }

  ghost predicate MatchedRun(s: Frames, locked: set<nat>, ops: seq<Op>)
    requires s.hint <= |s.bits| && forall op <- ops :: InRange(op, |s.bits|)
    decreases |ops|
  {
    ops == [] || (Matched(s, locked, ops[0]) && MatchedRun(Step(s, ops[0]), Locked(s, locked, ops[0]), ops[1..]))
  }

  lemma {:induction false} FewerThanSet(bits: seq<bool>, locked: set<nat>)
    requires forall f <- locked :: f < |bits| && bits[f]
    ensures |locked| <= CountSet(bits)
  {
    if bits == [] {
      assert locked == {};
    } else {
      var n := |bits| - 1;
      FewerThanSet(bits[..n], locked - {n});
      assert |locked| <= |locked - {n}| + (if bits[n] then 1 else 0) by {
        if n in locked {
          assert |locked - {n}| == |locked| - 1;
        } else {
          assert locked - {n} == locked;
        }
      }
    }
  }

  lemma ExactTake(s: Frames, locked: set<nat>, f: nat)
    requires f < |s.bits| && !s.bits[f] && Exact(s, locked)
    requires MEM_FRAME_SIZE * |s.bits| < U64_LIMIT
    ensures Exact(LockFrame(s, f), locked + {f}) && Exact(ReserveFrame(s, f), locked)
  {
    hide CountSet, Wrap;
    CountAfterWrite(s.bits, f, true);
    assert |locked + {f}| == |locked| + 1;
    WrapFits(s.used + MEM_FRAME_SIZE);
    WrapFits(s.reserved + MEM_FRAME_SIZE);
  }

  lemma ExactRelease(s: Frames, locked: set<nat>, f: nat)
    requires f < |s.bits| && s.bits[f] && Exact(s, locked)
    requires MEM_FRAME_SIZE * |s.bits| < U64_LIMIT
    ensures f in locked ==> Exact(FreeFrame(s, f), locked - {f})
    ensures f !in locked ==> Exact(UnreserveFrame(s, f), locked)
  {
    hide CountSet, Wrap;
    CountAfterWrite(s.bits, f, false);
    if f in locked {
      assert |locked - {f}| == |locked| - 1;
      WrapFits(s.used - MEM_FRAME_SIZE);
    } else {
      FewerThanSet(s.bits[f := false], locked);
      WrapFits(s.reserved - MEM_FRAME_SIZE);
    }
  }

  lemma ExactStep(s: Frames, locked: set<nat>, op: Op)
    requires s.hint <= |s.bits| && InRange(op, |s.bits|) && Exact(s, locked) && Matched(s, locked, op)
    requires MEM_FRAME_SIZE * |s.bits| < U64_LIMIT
    ensures Exact(Step(s, op), Locked(s, locked, op))
  {
    hide CountSet, Wrap;
    var f := if op.Request? then FirstClear(s.bits, s.hint) else op.f;
    if f < |s.bits| {
      if s.bits[f] {
        ExactRelease(s, locked, f);
      } else {
        ExactTake(s, locked, f);
        assert f !in locked;
        assert locked - {f} == locked;
      }
    }
  }

  /**
   * After a run the used counter is exactly the size of the frames locked and not freed,
   * and the reserved counter that of the other frames taken.
   */
  lemma {:induction false} ExactRun(s: Frames, locked: set<nat>, ops: seq<Op>)
    requires s.hint <= |s.bits| && (forall op <- ops :: InRange(op, |s.bits|))
    requires Exact(s, locked) && MatchedRun(s, locked, ops)
    requires MEM_FRAME_SIZE * |s.bits| < U64_LIMIT
    ensures Exact(Run(s, ops), LockedRun(s, locked, ops))
    decreases |ops|
  {
    if ops != [] {
      ExactStep(s, locked, ops[0]);
      ExactRun(Step(s, ops[0]), Locked(s, locked, ops[0]), ops[1..]);
    }
  }

  /**
   * The three counters then add up to the total without wrap-around exactly as long as
   * the frames taken are no more than the total; beyond that the free counter has
   * passed below zero.
   */
  lemma ExactSum(s: Frames, locked: set<nat>, total: nat)
    requires Exact(s, locked) && Balanced(s, total)
    requires MEM_FRAME_SIZE * |s.bits| < U64_LIMIT && total < U64_LIMIT
    ensures s.free + s.used + s.reserved == total <==> MEM_FRAME_SIZE * CountSet(s.bits) <= total
    ensures s.free + s.used + s.reserved in {total, total + U64_LIMIT}
  {
    hide CountSet, Wrap;
    SameUpToWrap(s.free + s.used + s.reserved, total);
  }

  lemma SameUpToWrap(x: nat, y: nat)
    requires Wrap(x) == Wrap(y) && x < 2 * U64_LIMIT && y < U64_LIMIT
    ensures x == y || x == y + U64_LIMIT
  {
  }
}

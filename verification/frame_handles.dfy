/** Generations of frame handles: exactly when a consumed handle stays refused, and
    the runs in which an old handle becomes valid again. */
module FrameHandles {
  import opened Wrappers
  import opened Machine
  import opened Ordered
  import opened Bits
  import opened Blocks
  import opened Frames
  import opened FramePartition

  // No live run is behind its base's counter.
  predicate AtLeast(s: State) {
    forall b :: b in s.live ==> s.live[b].generation >= Counter(s, b)
  }

  predicate Consumed(s: State, run: FrameRun) {
    run.generation < Counter(s, run.base)
  }

  // That is what it takes for every consumed handle to be refused.
  lemma ConsumedRefusedExactly(s: State)
    requires WellFormed(s)
    ensures AtLeast(s) <==> forall run: FrameRun :: Consumed(s, run) ==> Validate(s, run).Err?
  {
    if forall run: FrameRun :: Consumed(s, run) ==> Validate(s, run).Err? {
      forall b | b in s.live
        ensures s.live[b].generation >= Counter(s, b)
      {
        assert GoodRecord(s.live[b], b);
        assert Consumed(s, s.live[b]) ==> Validate(s, s.live[b]).Err?;
      }
    }
  }

  // A split whose right half starts at a page that has been released, lent or
  // reclaimed more often than the run: the page keeps its newer counter.
  predicate Revives(s: State, op: Op) {
    && op.OpSplit?
    && op.run.base in s.live && op.run.base !in s.loans
    && s.live[op.run.base].generation == op.run.generation && s.live[op.run.base].pages == op.run.pages
    && 0 < op.leftPages < op.run.pages
    && Counter(s, End(op.run.base, op.leftPages)) > op.run.generation
  }

  lemma SplitRevives(s: State, run: FrameRun, leftPages: u64)
    requires WellFormed(s) && AtLeast(s)
    ensures AtLeast(SplitAllocated(s, run, leftPages).0) <==> !Revives(s, OpSplit(run, leftPages))
    ensures forall b :: Counter(s, b) <= Counter(SplitAllocated(s, run, leftPages).0, b)
  {
    if SplitAllocated(s, run, leftPages).1.Ok? {
      var mid := End(run.base, leftPages);
      assert GoodRecord(s.live[run.base], run.base);
      assert mid in SplitAllocated(s, run, leftPages).0.live;
    }
  }

  /** An operation keeps every consumed handle refused if and only if it is not such a
      split; counters never go back. */
  lemma StaysRefusedExactly(s: State, op: Op)
    requires WellFormed(s) && AtLeast(s)
    ensures AtLeast(Step(s, op)) <==> !Revives(s, op)
    ensures forall b :: Counter(s, b) <= Counter(Step(s, op), b)
  {
    if op.OpSplit? { SplitRevives(s, op.run, op.leftPages); } else { OthersStay(s, op); }
    hide AtLeast, Revives, Counter, Step, WellFormed;
  }

  lemma OthersStay(s: State, op: Op)
    requires WellFormed(s) && AtLeast(s) && !op.OpSplit?
    ensures AtLeast(Step(s, op)) && forall b :: Counter(s, b) <= Counter(Step(s, op), b)
  {
    if op.OpAllocate? && Allocate(s, op.count, op.alignmentPages).1.Ok? {
      var b, up := AllocateChoice(s, op.count, op.alignmentPages);
    }
    hide Coalesce, Allocate, AddRegion;
  }

  // Lending, reclaiming and releasing each consume the handle they were given.
  lemma AcceptedHandleIsConsumed(s: State, run: FrameRun, borrower: u32)
    ensures Lend(s, run, borrower).1.Ok? ==> Consumed(Lend(s, run, borrower).0, run)
    ensures Reclaim(s, run, borrower).1.Ok? ==> Consumed(Reclaim(s, run, borrower).0, run)
    ensures Release(s, run).1.Ok? ==> Consumed(Release(s, run).0, run)
  {
  }

  ghost predicate NeverRevives(s: State, ops: seq<Op>)
    requires WellFormed(s)
  {
    ops == [] || var n := |ops| - 1; NeverRevives(s, ops[..n]) && !Revives(RunFrom(s, ops[..n]), ops[n])
  }

  /** In every run without such a split, joins included, a consumed handle is refused in
      every later state. */
  lemma {:induction false} ConsumedForever(s: State, ops: seq<Op>, run: FrameRun)
    requires WellFormed(s) && AtLeast(s) && Consumed(s, run) && NeverRevives(s, ops)
    ensures AtLeast(RunFrom(s, ops)) && Consumed(RunFrom(s, ops), run)
    ensures Validate(RunFrom(s, ops), run).Err?
  {
    hide Step, Revives, WellFormed;
    if ops != [] {
      var n := |ops| - 1;
      ConsumedForever(s, ops[..n], run);
      StaysRefusedExactly(RunFrom(s, ops[..n]), ops[n]);
    }
    ConsumedRefusedExactly(RunFrom(s, ops));
  }

  // ---------------------------------------------------------------------
  // Refused handles that were never consumed

  // The operation hands out a run of the same base, size and generation.
  predicate Reissues(s: State, op: Op, run: FrameRun)
    requires WellFormed(s)
  {
    match op
    case OpAllocate(count, alignmentPages) =>
      && 0 < count == run.pages && Counter(s, run.base) == run.generation
      && 0 < alignmentPages && IsPowerOfTwo(alignmentPages) && alignmentPages * PAGE_SIZE < U64_LIMIT
      && var choice := FirstFit(s.free, Sorted(s.free.Keys), count, alignmentPages * PAGE_SIZE);
         choice.Some? && choice.value.1 == run.base
    case OpLend(handle, _) =>
      && Current(s, handle) && handle.base !in s.loans && NextHandle(handle, run)
    case OpReclaim(handle, borrower) =>
      && Current(s, handle) && handle.base in s.loans && s.loans[handle.base] == borrower && NextHandle(handle, run)
    case OpSplit(handle, leftPages) =>
      && Current(s, handle) && handle.base !in s.loans && 0 < leftPages < handle.pages
      && run.generation == handle.generation
      && (|| (run.base == handle.base && run.pages == leftPages)
          || (run.base == End(handle.base, leftPages) && run.pages == handle.pages - leftPages))
    case OpJoin(left, right) =>
      && Current(s, left) && Current(s, right) && left.base !in s.loans && right.base !in s.loans
      && left.generation == right.generation == run.generation
      && s.live[left.base].zeroed == s.live[right.base].zeroed
      && run.base == left.base && End(left.base, left.pages) == right.base && run.pages == left.pages + right.pages
    case _ => false
  }

  predicate NextHandle(handle: FrameRun, run: FrameRun) {
    run.base == handle.base && run.pages == handle.pages && run.generation == handle.generation + 1 < U64_LIMIT
  }

  /** A refused handle validates after an operation if and only if the operation reissues it. */
  lemma ReissuedExactly(s: State, op: Op, run: FrameRun)
    requires WellFormed(s) && !Current(s, run)
    ensures Current(Step(s, op), run) <==> Reissues(s, op, run)
  {
    hide Coalesce, Carve, FirstFit, Sorted, IsPowerOfTwo;
    match op {
      case OpAllocate(_, _) => AllocateReissues(s, op, run);
      case OpJoin(_, _) => JoinReissues(s, op, run);
      case _ =>
    }
  }

  lemma AllocateReissues(s: State, op: Op, run: FrameRun)
    requires WellFormed(s) && !Current(s, run) && op.OpAllocate?
    ensures Current(Step(s, op), run) <==> Reissues(s, op, run)
  {
    hide Carve, FirstFit, Sorted, IsPowerOfTwo;
  }

  lemma JoinReissues(s: State, op: Op, run: FrameRun)
    requires WellFormed(s) && !Current(s, run) && op.OpJoin?
    ensures Current(Step(s, op), run) <==> Reissues(s, op, run)
  {
    if Current(s, op.left) && Current(s, op.right) {
      assert GoodRecord(s.live[op.left.base], op.left.base) && GoodRecord(s.live[op.right.base], op.right.base);
    }
  }

  /** So in a run without a reviving split, a refused handle that validates at the end was
      reissued on the way, at a point where it had never been consumed. */
  lemma {:induction false} ComesBackByReissue(s: State, ops: seq<Op>, run: FrameRun) returns (k: nat)
    requires WellFormed(s) && AtLeast(s) && NeverRevives(s, ops)
    requires !Current(s, run) && Current(RunFrom(s, ops), run)
    ensures k < |ops| && !Current(RunFrom(s, ops[..k]), run) && !Consumed(RunFrom(s, ops[..k]), run)
    ensures Reissues(RunFrom(s, ops[..k]), ops[k], run)
  {
    hide Step, Revives, WellFormed, Reissues;
    var n := |ops| - 1;
    assert ops != [];
    var t := RunFrom(s, ops[..n]);
    if Current(t, run) {
      k := ComesBackByReissue(s, ops[..n], run);
      assert ops[..n][..k] == ops[..k];
    } else {
      k := n;
      KeepsAtLeast(s, ops[..n]);
      ReissuedExactly(t, ops[n], run);
      StaysRefusedExactly(t, ops[n]);
      assert Counter(t, run.base) <= Counter(Step(t, ops[n]), run.base);
    }
  }

  lemma {:induction false} KeepsAtLeast(s: State, ops: seq<Op>)
    requires WellFormed(s) && AtLeast(s) && NeverRevives(s, ops)
    ensures AtLeast(RunFrom(s, ops))
  {
    hide Step, Revives, WellFormed;
    if ops != [] {
      var n := |ops| - 1;
      KeepsAtLeast(s, ops[..n]);
      StaysRefusedExactly(RunFrom(s, ops[..n]), ops[n]);
    }
  }

  /** A join refuses its right handle and does not consume it. */
  lemma JoinConsumesNothing(s: State, left: FrameRun, right: FrameRun)
    requires WellFormed(s) && AtLeast(s) && JoinAllocated(s, left, right).1.Ok?
    ensures var t := JoinAllocated(s, left, right).0;
      !Current(t, right) && !Consumed(t, right) && forall b :: Counter(t, b) == Counter(s, b)
  {
    assert GoodRecord(s.live[left.base], left.base);
  }

  // ---------------------------------------------------------------------
  // Handles that come back

  lemma AlignedToOnePage(base: nat)
    requires base % PAGE_SIZE == 0 && base + (PAGE_SIZE - 1) < U64_LIMIT
    ensures Clear(base + (PAGE_SIZE - 1), PAGE_SIZE - 1) == base
  {
    assert Pow2(12) == PAGE_SIZE;
    ClearLow(base + (PAGE_SIZE - 1), 12);
  }

  lemma SortedOne(k: int)
    ensures Sorted({k}) == [k]
  {
    var keys := Sorted({k});
    assert k in keys;
    forall i | 0 <= i < |keys|
      ensures keys[i] == k
    {
      assert keys[i] in keys;
    }
    assert Increasing(keys);
  }

  lemma AllocateFromOnly(s: State, base: u64, available: u64, pages: u64)
    requires WellFormed(s) && s.free == map[base := available] && 0 < pages <= available
    ensures var run := FrameRun(base, pages, Counter(s, base), false);
      Allocate(s, pages, 1) ==
        (s.(free := if pages == available then map[] else map[End(base, pages) := available - pages],
            live := s.live[base := run]),
         Ok(run))
  {
    assert base in s.free && Good(base, s.free[base]);
    SortedOne(base);
    assert s.free.Keys == {base};
    AlignedToOnePage(base);
    assert Fit(base, available, pages, PAGE_SIZE) == Some(base);
    assert [base][0] == base;
    assert FirstFit(s.free, [base], pages, PAGE_SIZE) == Some((base, base));
    assert s.free - {base} == map[];
  }

  lemma CoalesceOne(base: int, pages: int)
    requires Good(base, pages)
    ensures Coalesce(map[base := pages]) == map[base := pages]
  {
    CoalesceIsNormalForm(map[base := pages]);
    NormalFormUnique(Coalesce(map[base := pages]), map[base := pages]);
  }

  const TwoPages := OpAdd(4096, 2)
  const Whole := FrameRun(4096, 2, 0, false)
  const Left := FrameRun(4096, 1, 0, false)
  const Right := FrameRun(8192, 1, 0, false)

  const Allocated := State(map[], map[4096 := Whole], map[], map[])
  const Halved := State(map[], map[4096 := Left, 8192 := Right], map[8192 := 0], map[])
  const Joined := State(map[], map[4096 := Whole], map[8192 := 0], map[])
  const Released := State(map[4096 := 2], map[], map[8192 := 0, 4096 := 1], map[])
  const Reissued := State(map[8192 := 1], map[4096 := FrameRun(4096, 1, 1, false)], map[8192 := 0, 4096 := 1], map[])

  lemma AllocatedIsReachable(ops: seq<Op>)
    requires ops == [TwoPages] + [OpAllocate(2, 1)]
    ensures Run(ops) == Allocated
  {
    var s1 := State(map[4096 := 2], map[], map[], map[]);
    var none: seq<Op> := [];
    assert Run(none) == Init;
    RunSnoc(none, TwoPages);
    CoalesceOne(4096, 2);
    assert Init.free[4096 := 2] == s1.free;
    assert none + [TwoPages] == [TwoPages];
    RunSnoc([TwoPages], OpAllocate(2, 1));
    AllocateFromOnly(s1, 4096, 2, 2);
  }

  lemma SplitAndJoinSteps()
    ensures SplitAllocated(Allocated, Whole, 1).0 == Halved
    ensures JoinAllocated(Halved, Left, Right).0 == Joined
  {
    assert Allocated.live - {4096} == map[];
    assert Halved.live - {4096} - {8192} == map[];
  }

  lemma ReleaseStep()
    ensures Release(Joined, Whole).0 == Released
  {
    CoalesceOne(4096, 2);
    assert Joined.free[4096 := 2] == map[4096 := 2];
    assert Joined.live - {4096} == map[];
    assert Joined.generations[4096 := 1] == Released.generations;
  }

  lemma ReissueFirst()
    ensures WellFormed(Released) && Allocate(Released, 1, 1).0 == Reissued
  {
    AllocateFromOnly(Released, 4096, 2, 1);
  }

  lemma ReissueSecond()
    ensures WellFormed(Reissued) && Validate(Allocate(Reissued, 1, 1).0, Right).Ok?
  {
    assert WellFormed(Reissued);
    AllocateFromOnly(Reissued, 8192, 1, 1);
    hide Allocate;
  }

  lemma RunToJoin(ops: seq<Op>)
    requires Run(ops) == Allocated
    ensures Run(ops + [OpSplit(Whole, 1)]) == Halved
    ensures Run(ops + [OpSplit(Whole, 1)] + [OpJoin(Left, Right)]) == Joined
  {
    SplitAndJoinSteps();
    RunSnoc(ops, OpSplit(Whole, 1));
    RunSnoc(ops + [OpSplit(Whole, 1)], OpJoin(Left, Right));
  }

  lemma RunToReissue(ops: seq<Op>)
    requires Run(ops) == Joined
    ensures Run(ops + [OpRelease(Whole)] + [OpAllocate(1, 1)]) == Reissued
  {
    ReleaseStep();
    ReissueFirst();
    hide Release, Allocate;
    RunSnoc(ops, OpRelease(Whole));
    RunSnoc(ops + [OpRelease(Whole)], OpAllocate(1, 1));
  }

  /** A join refuses its right handle but does not consume it: the split recorded
      generation 0 for the page and release moves only the counter of the joined run's
      base, so once the page is reissued the handle validates again. */
  lemma JoinedHandleComesBack(ops: seq<Op>)
    requires ops == [TwoPages] + [OpAllocate(2, 1)]
    ensures Validate(Run(ops + [OpSplit(Whole, 1)]), Right).Ok?
    ensures Validate(Run(ops + [OpSplit(Whole, 1)] + [OpJoin(Left, Right)]), Right).Err?
    ensures !Consumed(Run(ops + [OpSplit(Whole, 1)] + [OpJoin(Left, Right)]), Right)
    ensures Validate(Run(ops + [OpSplit(Whole, 1)] + [OpJoin(Left, Right)]
                           + [OpRelease(Whole)] + [OpAllocate(1, 1)] + [OpAllocate(1, 1)]), Right).Ok?
  {
    AllocatedIsReachable(ops);
    RunToJoin(ops);
    var joined := ops + [OpSplit(Whole, 1)] + [OpJoin(Left, Right)];
    RunToReissue(joined);
    hide Allocate;
    RunSnoc(joined + [OpRelease(Whole)] + [OpAllocate(1, 1)], OpAllocate(1, 1));
    ReissueSecond();
  }

  // ---------------------------------------------------------------------
  // A consumed handle revived by a split

  const RightOnly := State(map[4096 := 1], map[8192 := Right], map[], map[])
  const RightReleased := State(map[4096 := 2], map[], map[8192 := 1], map[])
  const WholeAgain := State(map[], map[4096 := Whole], map[8192 := 1], map[])
  const HalvedAgain := State(map[], map[4096 := Left, 8192 := Right], map[8192 := 1], map[])

  // A free map of one block, when a run fits in it.
  lemma FirstFitOnly(free: map<int, int>, base: int, pages: int, alignment: nat, aligned: int)
    requires AllGood(free) && free.Keys == {base} && alignment > 0
    requires base >= 0 && Fit(base, free[base], pages, alignment) == Some(aligned)
    ensures FirstFit(free, Sorted(free.Keys), pages, alignment) == Some((base, aligned))
  {
    hide Fit, Sorted;
    SortedOne(base);
    assert [base][0] == base;
  }

  lemma SecondPageFits(base: nat, alignment: nat)
    requires base == PAGE_SIZE && alignment == 2 * PAGE_SIZE
    ensures Fit(base, 2, 1, alignment) == Some(alignment)
  {
    hide Clear, Pow2;
    TwoPageWeight();
    ClearLow(base + (alignment - 1), 13);
    assert base + (alignment - 1) == 1 * Pow2(13) + (PAGE_SIZE - 1);
    DivModUnique(base + (alignment - 1), Pow2(13), 1, PAGE_SIZE - 1);
  }

  lemma TwoPageWeight()
    ensures Pow2(13) == 2 * PAGE_SIZE
  {
    assert Pow2(12) == PAGE_SIZE;
  }

  // One page aligned to two is taken from behind the first.
  lemma TakeSecondPage(s: State)
    requires s == State(map[4096 := 2], map[], map[], map[])
    ensures WellFormed(s) && Allocate(s, 1, 2).0 == RightOnly
  {
    assert IsPowerOfTwo(2);
    hide Fit, FirstFit, Sorted, IsPowerOfTwo;
    SecondPageFits(4096, 8192);
    assert WellFormed(s) && s.free.Keys == {4096};
    FirstFitOnly(s.free, 4096, 1, 8192, 8192);
    assert s.free - {4096} == map[];
    assert Carve(s.free, 4096, 8192, 1) == map[4096 := 1];
  }

  // Two touching pages coalesce into one block.
  lemma CoalesceTwo(two: map<int, int>, base: int, next: int)
    requires Good(base, 2) && next == base + PAGE_SIZE && two == map[base := 1, next := 1]
    ensures Coalesce(two) == map[base := 2]
  {
    var one := map[base := 2];
    TwoPagesShape(two, one, base, next);
    hide Coalesce, Covers, SameCover, Separate, Normal;
    SameTwoPages(two, one, base, next);
    CoalesceIsNormalForm(two);
  }

  lemma TwoPagesShape(two: map<int, int>, one: map<int, int>, base: int, next: int)
    requires Good(base, 2) && next == base + PAGE_SIZE && two == map[base := 1, next := 1] && one == map[base := 2]
    ensures Separate(two) && Normal(one)
  {
  }

  lemma SameTwoPages(two: map<int, int>, one: map<int, int>, base: int, next: int)
    requires next == base + PAGE_SIZE && two == map[base := 1, next := 1] && one == map[base := 2]
    ensures SameCover(one, two)
  {
    forall a
      ensures Covers(one, a) <==> Covers(two, a)
    {
      assert In(base, 2, a) <==> In(base, 1, a) || In(next, 1, a);
      assert base in one && base in two && next in two;
    }
  }

  lemma ReleaseSecondPage()
    ensures Release(RightOnly, Right).0 == RightReleased
  {
    var two := RightOnly.free[8192 := 1];
    assert two == map[4096 := 1, 8192 := 1];
    CoalesceTwo(two, 4096, 8192);
    hide Coalesce;
    assert RightOnly.live - {8192} == map[];
  }

  lemma TakeWholeAgain()
    ensures WellFormed(RightReleased) && Allocate(RightReleased, 2, 1).0 == WholeAgain
  {
    AllocateFromOnly(RightReleased, 4096, 2, 2);
  }

  lemma HalveAgain()
    ensures SplitAllocated(WholeAgain, Whole, 1).0 == HalvedAgain && Revives(WholeAgain, OpSplit(Whole, 1))
  {
    assert WholeAgain.live - {4096} == map[];
  }

  lemma RunToWholeAgain(ops: seq<Op>)
    requires Run(ops) == RightOnly
    ensures Run(ops + [OpRelease(Right)]) == RightReleased
    ensures Run(ops + [OpRelease(Right)] + [OpAllocate(2, 1)]) == WholeAgain
    ensures Run(ops + [OpRelease(Right)] + [OpAllocate(2, 1)] + [OpSplit(Whole, 1)]) == HalvedAgain
  {
    ReleaseSecondPage();
    TakeWholeAgain();
    HalveAgain();
    hide Release, Allocate, SplitAllocated;
    RunSnoc(ops, OpRelease(Right));
    RunSnoc(ops + [OpRelease(Right)], OpAllocate(2, 1));
    RunSnoc(ops + [OpRelease(Right)] + [OpAllocate(2, 1)], OpSplit(Whole, 1));
  }

  lemma RightOnlyIsReachable(ops: seq<Op>)
    requires ops == [TwoPages] + [OpAllocate(1, 2)]
    ensures Run(ops) == RightOnly
  {
    var s1 := State(map[4096 := 2], map[], map[], map[]);
    var none: seq<Op> := [];
    assert Run(none) == Init;
    RunSnoc(none, TwoPages);
    CoalesceOne(4096, 2);
    assert Init.free[4096 := 2] == s1.free;
    assert none + [TwoPages] == [TwoPages];
    TakeSecondPage(s1);
    hide Allocate;
    RunSnoc([TwoPages], OpAllocate(1, 2));
  }

  /** The second of two pages is taken, released and coalesced, both are taken again as
      one run and split: the released, consumed handle validates again. */
  lemma ReleasedHandleComesBack(ops: seq<Op>)
    requires ops == [TwoPages] + [OpAllocate(1, 2)]
    ensures Validate(Run(ops), Right).Ok?
    ensures Consumed(Run(ops + [OpRelease(Right)]), Right) && Validate(Run(ops + [OpRelease(Right)]), Right).Err?
    ensures Consumed(Run(ops + [OpRelease(Right)] + [OpAllocate(2, 1)] + [OpSplit(Whole, 1)]), Right)
    ensures Validate(Run(ops + [OpRelease(Right)] + [OpAllocate(2, 1)] + [OpSplit(Whole, 1)]), Right).Ok?
  {
    RightOnlyIsReachable(ops);
    RunToWholeAgain(ops);
    hide Run;
  }

  // Adding a region that is already live is accepted and breaks the partition.
  lemma LiveRegionAddedAgain()
    ensures Inv(Allocated) && AddRegion(Allocated, 4096, 2).1.Ok?
    ensures !Kept(Allocated, OpAdd(4096, 2))
  {
    var live := map[4096 := 2];
    assert Live(Allocated) == live;
    AvoidsLiveFails(Allocated);
    KeepsPartitionExactlyWhenClean(Allocated, OpAdd(4096, 2));
  }

  lemma AvoidsLiveFails(s: State)
    requires s == Allocated
    ensures !AvoidsLive(s, 4096, 2)
  {
    assert 4096 in s.live;
  }

  // ---------------------------------------------------------------------
  // The last generation

  const OnePage := OpAdd(4096, 1)

  // One page, taken and released n times.
  function Recycle(n: nat): seq<Op> {
    if n == 0 then [OnePage]
    else Recycle(n - 1) + [OpAllocate(1, 1)] + [OpRelease(FrameRun(4096, 1, n - 1, false))]
  }

  function Recycled(n: nat): State {
    State(map[4096 := 1], map[], if n == 0 then map[] else map[4096 := n], map[])
  }

  function Taken(n: nat): State {
    Recycled(n).(free := map[], live := map[4096 := FrameRun(4096, 1, n, false)])
  }

  lemma TakeOnly(n: nat)
    requires n < U64_LIMIT
    ensures WellFormed(Recycled(n)) && Allocate(Recycled(n), 1, 1).0 == Taken(n)
  {
    AllocateFromOnly(Recycled(n), 4096, 1, 1);
  }

  lemma GiveOnly(n: nat)
    requires n + 1 < U64_LIMIT
    ensures Release(Taken(n), FrameRun(4096, 1, n, false)).0 == Recycled(n + 1)
  {
    var s := Taken(n);
    CoalesceOne(4096, 1);
    assert s.free[4096 := 1] == map[4096 := 1] && s.live - {4096} == map[];
    assert s.generations[4096 := n + 1] == map[4096 := n + 1];
  }

  lemma FirstPage()
    ensures Run([OnePage]) == Recycled(0)
  {
    var none: seq<Op> := [];
    assert Run(none) == Init && none + [OnePage] == [OnePage];
    RunSnoc(none, OnePage);
    CoalesceOne(4096, 1);
    assert Init.free[4096 := 1] == map[4096 := 1];
  }

  lemma RecycleOnce(n: nat, ops: seq<Op>)
    requires n + 1 < U64_LIMIT && Run(ops) == Recycled(n)
    ensures Run(ops + [OpAllocate(1, 1)] + [OpRelease(FrameRun(4096, 1, n, false))]) == Recycled(n + 1)
  {
    hide Release, Run, Recycled, Taken;
    TakeLast(n, ops);
    GiveOnly(n);
    RunSnoc(ops + [OpAllocate(1, 1)], OpRelease(FrameRun(4096, 1, n, false)));
  }

  lemma TakeLast(n: nat, ops: seq<Op>)
    requires n < U64_LIMIT && Run(ops) == Recycled(n)
    ensures Run(ops + [OpAllocate(1, 1)]) == Taken(n)
  {
    TakeOnly(n);
    hide Allocate, Run, Recycled, Taken;
    RunSnoc(ops, OpAllocate(1, 1));
  }

  /** Every generation of the page is reached from the start. */
  lemma {:induction false} EveryGenerationReached(n: nat)
    requires n < U64_LIMIT
    ensures Run(Recycle(n)) == Recycled(n) && Run(Recycle(n) + [OpAllocate(1, 1)]) == Taken(n)
  {
    hide Run, Recycled, Taken;
    if n == 0 {
      FirstPage();
    } else {
      EveryGenerationReached(n - 1);
      RecycleOnce(n - 1, Recycle(n - 1));
    }
    hide Recycle;
    TakeLast(n, Recycle(n));
  }

  /** Released at the last generation, the page is neither free nor live. */
  lemma LastGenerationLost(last: nat, run: FrameRun)
    requires last == U64_MAX && run == FrameRun(4096, 1, last, false)
    ensures var s := Run(Recycle(last) + [OpAllocate(1, 1)]); var t := Release(s, run).0;
      && Inv(s) && !Clean(s, OpRelease(run)) && !Kept(s, OpRelease(run))
      && Release(s, run).1 == Err(GenerationOverflow)
      && OwnedAt(s, 4096) && forall a :: !OwnedAt(t, a)
  {
    EveryGenerationReached(last);
    var s := Taken(last);
    OnePageParted(s, run);
    hide Run, Recycle;
    KeepsPartitionExactlyWhenClean(s, OpRelease(run));
    assert s.live - {4096} == map[];
  }

  lemma OnePageParted(s: State, run: FrameRun)
    requires 0 <= run.generation < U64_LIMIT && run.base == 4096 && run.pages == 1
    requires s.free == map[] && s.live == map[4096 := run] && s.loans == map[]
    requires forall b :: b in s.generations ==> 0 <= s.generations[b] < U64_LIMIT
    ensures Inv(s) && OwnedAt(s, 4096)
  {
    var live := Live(s);
    assert live == map[4096 := 1] && 4096 in live;
    assert In(4096, live[4096], 4096);
    assert Covers(live, 4096);
  }
}

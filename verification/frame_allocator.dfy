/** The frame allocator as the object the kernel holds: four maps updated in place. */
module FrameAllocators {
  import opened Wrappers
  import opened Machine
  import opened Ordered
  import opened Blocks
  import opened Frames
  import opened FramePartition
  import Spec = Frames

  // ---------------------------------------------------------------------
  // What each operation means for its caller

  // A region is accepted exactly when it is well formed and none of it is free.
  lemma RegionAcceptedExactly(s: State, base: u64, pages: u64)
    requires WellFormed(s)
    ensures Spec.AddRegion(s, base, pages).1.Ok? <==>
      Good(base, pages) && forall a :: In(base, pages, a) ==> !Covers(s.free, a)
  {
    if Spec.AddRegion(s, base, pages).1.Ok? {
      AcceptedRegionIsNew(s, base, pages);
    } else if Good(base, pages) {
      var b :| b in s.free && base < Saturate(b + Saturate(s.free[b] * PAGE_SIZE)) && b < End(base, pages);
      assert Good(b, s.free[b]);
      var a := if b < base then base else b;
      assert In(base, pages, a) && In(b, s.free[b], a);
      assert Covers(s.free, a);
    }
  }

  lemma AddMeans(s: State, base: u64, pages: u64)
    requires WellFormed(s)
    ensures var (t, r) := Spec.AddRegion(s, base, pages);
      && WellFormed(t) && (r.Err? ==> t == s)
      && (Inv(s) ==> (Conserves(s, t, if r.Ok? then Region(base, pages) else iset{}, if r.Ok? then pages else 0)
                      <==> Clean(s, OpAdd(base, pages))))
  {
    AddWellFormed(s, base, pages);
    if Inv(s) { KeepsPartitionExactlyWhenClean(s, OpAdd(base, pages)); }
    hide Conserves, Clean, WellFormed, Inv, OverlapsFree;
  }

  // An operation that is neither an addition nor a release moves no page in or out.
  lemma OthersMean(s: State, op: Op)
    requires WellFormed(s) && !op.OpAdd? && !op.OpRelease?
    ensures WellFormed(Step(s, op)) && (Inv(s) ==> Conserves(s, Step(s, op), iset{}, 0))
  {
    StepWellFormed(s, op);
    hide Conserves, WellFormed, Inv, Step;
    if Inv(s) { KeepsPartitionExactlyWhenClean(s, op); }
  }

  lemma ReleaseMeans(s: State, run: FrameRun)
    requires WellFormed(s)
    ensures var (t, r) := Spec.Release(s, run);
      && WellFormed(t)
      && (r.Ok? <==> Current(s, run) && run.base !in s.loans && run.generation + 1 < U64_LIMIT)
      && (r.Err? ==> (t == s <==> r.error != GenerationOverflow))
      && (r.Ok? ==> && t.live == s.live - {run.base} && t.loans == s.loans
                    && t.generations == s.generations[run.base := run.generation + 1])
      && (Inv(s) ==> (Conserves(s, t, iset{}, 0) <==> Clean(s, OpRelease(run))))
  {
    ReleaseGuards(s, run);
    ReleaseConserves(s, run);
    hide Conserves, WellFormed, Inv, Spec.Release, Clean, Current;
  }

  lemma ReleaseConserves(s: State, run: FrameRun)
    requires WellFormed(s)
    ensures WellFormed(Spec.Release(s, run).0)
    ensures Inv(s) ==> (Conserves(s, Spec.Release(s, run).0, iset{}, 0) <==> Clean(s, OpRelease(run)))
  {
    hide Conserves, WellFormed, Inv, Spec.Release, Clean;
    ReleaseWellFormed(s, run);
    if Inv(s) { KeepsPartitionExactlyWhenClean(s, OpRelease(run)); }
  }

  lemma ReleaseGuards(s: State, run: FrameRun)
    ensures var (t, r) := Spec.Release(s, run);
      && (r.Ok? <==> Current(s, run) && run.base !in s.loans && run.generation + 1 < U64_LIMIT)
      && (r.Err? ==> (t == s <==> r.error != GenerationOverflow))
      && (r.Ok? ==> && t.live == s.live - {run.base} && t.loans == s.loans
                    && t.generations == s.generations[run.base := run.generation + 1])
  {
    hide Coalesce;
  }

  // The first block in ascending order that fits.
  function LowestFit(free: map<int, int>, pages: u64, alignment: u64): Option<(int, int)>
    requires AllGood(free) && alignment > 0
  {
    FirstFit(free, Sorted(free.Keys), pages, alignment)
  }

  lemma AllocateAlignedIs(s: State, pages: u64, alignment: u64, choice: Option<(int, int)>)
    requires WellFormed(s) && alignment > 0 && choice == LowestFit(s.free, pages, alignment)
    ensures choice.None? ==> Spec.AllocateAligned(s, pages, alignment) == (s, Err(OutOfMemory))
    ensures choice.Some? ==>
      var (base, aligned) := choice.value; var run := FrameRun(aligned, pages, Counter(s, aligned), false);
      && base in s.free
      && Spec.AllocateAligned(s, pages, alignment)
         == (s.(free := Carve(s.free, base, aligned, pages), live := s.live[aligned := run]), Ok(run))
  {
    FirstFitIsKey(s.free, Sorted(s.free.Keys), pages, alignment);
    hide FirstFit, WellFormed, Carve, Fit, NoneFit, Sorted;
  }

  // The run gives way to two that meet at the cut; a page that has a counter keeps it.
  predicate SplitInto(s: State, t: State, run: FrameRun, leftPages: int, left: FrameRun, right: FrameRun) {
    && run.base in s.live
    && left == s.live[run.base].(pages := leftPages)
    && right == s.live[run.base].(base := End(run.base, leftPages), pages := run.pages - leftPages)
    && t.live == s.live[left.base := left][right.base := right] && t.free == s.free && t.loans == s.loans
    && t.generations == if right.base in s.generations then s.generations else s.generations[right.base := run.generation]
  }

  lemma SplitGuards(s: State, run: FrameRun, leftPages: u64)
    requires WellFormed(s)
    ensures var (t, r) := Spec.SplitAllocated(s, run, leftPages);
      && (r.Ok? <==> Current(s, run) && run.base !in s.loans && 0 < leftPages < run.pages)
      && (r.Ok? ==> SplitInto(s, t, run, leftPages, r.value.0, r.value.1))
      && (r.Err? ==> t == s)
  {
    assert run.base in s.live ==> GoodRecord(s.live[run.base], run.base);
    hide WellFormed;
  }

  // Two live runs that nobody has borrowed, alike and touching.
  predicate Joinable(s: State, left: FrameRun, right: FrameRun) {
    && Current(s, left) && Current(s, right) && left.base !in s.loans && right.base !in s.loans
    && left.generation == right.generation && s.live[left.base].zeroed == s.live[right.base].zeroed
    && End(left.base, left.pages) == right.base
  }

  lemma JoinGuards(s: State, left: FrameRun, right: FrameRun)
    requires WellFormed(s)
    ensures var (t, r) := Spec.JoinAllocated(s, left, right);
      && (r.Ok? <==> Joinable(s, left, right)) && (r.Err? ==> t == s)
      && (r.Ok? ==> && r.value == s.live[left.base].(pages := left.pages + right.pages) && !Current(t, right)
                    && t.live == (s.live - {right.base})[left.base := r.value])
  {
    assert left.base in s.live ==> GoodRecord(s.live[left.base], left.base);
    assert right.base in s.live ==> GoodRecord(s.live[right.base], right.base);
    hide WellFormed;
  }

  predicate Admissible(pages: u64, alignmentPages: u64) {
    0 < pages && 0 < alignmentPages && IsPowerOfTwo(alignmentPages) && alignmentPages * PAGE_SIZE < U64_LIMIT
  }

  // The lowest aligned free run, or a refusal exactly when there is none.
  lemma AllocateMeans(s: State, pages: u64, alignmentPages: u64)
    requires WellFormed(s)
    ensures var (t, r) := Spec.Allocate(s, pages, alignmentPages);
      && WellFormed(t) && (r.Err? ==> t == s) && (r.Ok? ==> Admissible(pages, alignmentPages) && Current(t, r.value))
      && (Inv(s) ==> Conserves(s, t, iset{}, 0))
      && (Inv(s) && Admissible(pages, alignmentPages) ==>
            if r.Ok? then LowestFreeRun(s.free, r.value.base, pages, alignmentPages * PAGE_SIZE) && r.value.pages == pages
            else NoFreeRun(s.free, pages, alignmentPages * PAGE_SIZE))
  {
    OthersMean(s, OpAllocate(pages, alignmentPages));
    if Spec.Allocate(s, pages, alignmentPages).1.Err? {
      NothingAllocated(s, pages, alignmentPages);
    } else {
      var b, up := AllocateChoice(s, pages, alignmentPages);
    }
    if Inv(s) && Admissible(pages, alignmentPages) { AllocateIsComplete(s, pages, alignmentPages); }
    hide Conserves, WellFormed, Inv, Spec.AllocateAligned, LowestFreeRun, NoFreeRun, IsPowerOfTwo;
  }

  lemma SumNext(free: map<int, int>, keys: seq<int>, i: nat)
    requires AllIn(free, keys) && i < |keys|
    ensures AllIn(free, keys[..i]) && AllIn(free, keys[..i + 1])
    ensures SumOver(free, keys[..i + 1]) == SumOver(free, keys[..i]) + free[keys[i]]
  {
    assert keys[..i + 1][..i] == keys[..i];
  }

  class FrameAllocator {
    var free: map<int, int>
    var live: map<int, FrameRun>
    var generations: map<int, int>
    var loans: map<int, int>

    ghost function View(): State
      reads this
    {
      State(free, live, generations, loans)
    }

    ghost predicate Valid()
      reads this
    {
      WellFormed(View())
    }

    // Free pages and live runs partition the pages added.
    ghost predicate Partitioned()
      reads this
    {
      Inv(View())
    }

    constructor ()
      ensures Valid() && Partitioned() && View() == Init
    {
      free, live, generations, loans := map[], map[], map[], map[];
    }

    // One iteration of coalescing: extend the last block when the next one touches it.
    method AppendFree(base: int, pages: int)
      modifies this`free
      ensures free == Append(old(free), base, pages)
    {
      if LastTouches(free, base) {
        var last := Greatest(free.Keys);
        free := free[last := free[last] + pages];
      } else {
        free := free[base := pages];
      }
    }

    // Rebuild `free` in ascending order, merging blocks that touch.
    method CoalesceFree()
      modifies this`free
      ensures free == Coalesce(old(free))
    {
      var src := free;
      var keys := Sorted(src.Keys);
      free := map[];
      var i := 0;
      hide Append;
      while i < |keys|
        invariant 0 <= i <= |keys| && AllIn(src, keys)
        invariant free == CoalesceKeys(src, keys[..i])
      {
        AppendFree(keys[i], src[keys[i]]);
        CoalesceKeysNext(src, keys, i);
        i := i + 1;
      }
      assert keys[..|keys|] == keys;
    }

    method InsertRegion(base: u64, pages: u64) returns (r: Result<(), FrameError>)
      modifies this`free
      ensures (View(), r) == Spec.AddRegion(old(View()), base, pages)
    {
      hide Coalesce, OverlapsFree;
      if pages == 0 { return Err(Empty); }
      if base % PAGE_SIZE != 0 { return Err(Misaligned); }
      if pages * PAGE_SIZE >= U64_LIMIT || base + pages * PAGE_SIZE >= U64_LIMIT { return Err(RangeOverflow); }
      if OverlapsFree(free, base, base + pages * PAGE_SIZE) { return Err(Overlap); }
      free := free[base := pages];
      CoalesceFree();
      r := Ok(());
    }

    method AddRegion(base: u64, pages: u64) returns (r: Result<(), FrameError>)
      requires Valid()
      modifies this`free
      ensures Valid() && (View(), r) == Spec.AddRegion(old(View()), base, pages)
      ensures r.Ok? <==> Good(base, pages) && forall a :: In(base, pages, a) ==> !Covers(old(free), a)
      ensures r.Err? ==> View() == old(View())
      ensures old(Partitioned()) ==>
        (Conserves(old(View()), View(), if r.Ok? then Region(base, pages) else iset{}, if r.Ok? then pages else 0)
         <==> Clean(old(View()), OpAdd(base, pages)))
    {
      hide Spec.AddRegion, WellFormed, Conserves, Clean, Inv, Covers, Good;
      AddMeans(View(), base, pages);
      RegionAcceptedExactly(View(), base, pages);
      r := InsertRegion(base, pages);
    }

    // The `find_map` over free blocks in ascending order.
    method FindFit(pages: u64, alignment: u64) returns (choice: Option<(int, int)>)
      requires AllGood(free) && alignment > 0
      ensures choice == LowestFit(free, pages, alignment)
    {
      hide Fit;
      var keys := Sorted(free.Keys);
      var i := 0;
      assert keys[0..] == keys;
      while i < |keys|
        invariant 0 <= i <= |keys|
        invariant FirstFit(free, keys, pages, alignment) == FirstFit(free, keys[i..], pages, alignment)
      {
        var fit := Fit(keys[i], free[keys[i]], pages, alignment);
        if fit.Some? { return Some((keys[i], fit.value)); }
        assert keys[i..][1..] == keys[i + 1..];
        i := i + 1;
      }
      choice := None;
    }

    method AllocateAligned(pages: u64, alignment: u64) returns (r: Result<FrameRun, FrameError>)
      requires Valid() && alignment > 0
      modifies this
      ensures (View(), r) == Spec.AllocateAligned(old(View()), pages, alignment)
    {
      assert AllGood(free);
      hide Spec.AllocateAligned, LowestFit, WellFormed, Carve, AllGood;
      var choice := FindFit(pages, alignment);
      AllocateAlignedIs(View(), pages, alignment, choice);
      if choice.None? { return Err(OutOfMemory); }
      var (base, aligned) := choice.value;
      var run := FrameRun(aligned, pages, if aligned in generations then generations[aligned] else 0, false);
      free := Carve(free, base, aligned, pages);
      live := live[aligned := run];
      r := Ok(run);
    }

    method Allocate(pages: u64, alignmentPages: u64) returns (r: Result<FrameRun, FrameError>)
      requires Valid()
      modifies this
      ensures Valid() && (View(), r) == Spec.Allocate(old(View()), pages, alignmentPages)
      ensures r.Err? ==> View() == old(View())
      ensures r.Ok? ==> Admissible(pages, alignmentPages) && Current(View(), r.value)
      ensures old(Partitioned()) ==> Conserves(old(View()), View(), iset{}, 0)
      ensures old(Partitioned()) && Admissible(pages, alignmentPages) ==>
        if r.Ok? then LowestFreeRun(old(free), r.value.base, pages, alignmentPages * PAGE_SIZE) && r.value.pages == pages
        else NoFreeRun(old(free), pages, alignmentPages * PAGE_SIZE)
    {
      hide Spec.AllocateAligned, WellFormed, Conserves, Inv, LowestFreeRun, NoFreeRun, IsPowerOfTwo;
      AllocateMeans(View(), pages, alignmentPages);
      if pages == 0 || alignmentPages == 0 || !IsPowerOfTwo(alignmentPages) { return Err(Empty); }
      if alignmentPages * PAGE_SIZE >= U64_LIMIT { return Err(RangeOverflow); }
      r := AllocateAligned(pages, alignmentPages * PAGE_SIZE);
    }

    method MarkZeroed(run: FrameRun) returns (r: Result<FrameRun, FrameError>)
      requires Valid()
      modifies this`live
      ensures Valid() && (View(), r) == Spec.MarkZeroed(old(View()), run)
      ensures r.Ok? <==> Current(old(View()), run)
      ensures r.Err? ==> View() == old(View())
      ensures r.Ok? ==> && r.value == old(live)[run.base].(zeroed := true)
                        && View() == old(View()).(live := old(live)[run.base := r.value])
      ensures old(Partitioned()) ==> Conserves(old(View()), View(), iset{}, 0)
    {
      OthersMean(View(), OpZero(run));
      hide WellFormed, Conserves, Inv;
      r := Validate(State(free, live, generations, loans), run);
      if r.Err? { return; }
      var zeroed := r.value.(zeroed := true);
      live := live[run.base := zeroed];
      r := Ok(zeroed);
    }

    method Lend(run: FrameRun, borrower: u32) returns (r: Result<FrameRun, FrameError>)
      requires Valid()
      modifies this
      ensures Valid() && (View(), r) == Spec.Lend(old(View()), run, borrower)
      ensures r.Ok? <==> Current(old(View()), run) && run.base !in old(loans) && run.generation < U64_MAX
      ensures r.Err? ==> View() == old(View())
      ensures r.Ok? ==> && r.value == old(live)[run.base].(generation := run.generation + 1) && !Current(View(), run)
                        && View() == State(free, old(live)[run.base := r.value],
                             old(generations)[run.base := run.generation + 1], old(loans)[run.base := borrower])
      ensures free == old(free)
      ensures old(Partitioned()) ==> Conserves(old(View()), View(), iset{}, 0)
    {
      OthersMean(View(), OpLend(run, borrower));
      hide WellFormed, Conserves, Inv;
      r := Validate(State(free, live, generations, loans), run);
      if r.Err? { return; }
      if run.base in loans { return Err(AlreadyLent); }
      if r.value.generation + 1 >= U64_LIMIT { return Err(GenerationOverflow); }
      var lent := r.value.(generation := r.value.generation + 1);
      live := live[run.base := lent];
      generations := generations[run.base := lent.generation];
      loans := loans[run.base := borrower];
      r := Ok(lent);
    }

    method Reclaim(run: FrameRun, borrower: u32) returns (r: Result<FrameRun, FrameError>)
      requires Valid()
      modifies this
      ensures Valid() && (View(), r) == Spec.Reclaim(old(View()), run, borrower)
      ensures r.Ok? <==> && Current(old(View()), run) && run.base in old(loans) && old(loans)[run.base] == borrower
                         && run.generation < U64_MAX
      ensures r.Err? ==> View() == old(View())
      ensures r.Ok? ==> && r.value == old(live)[run.base].(generation := run.generation + 1) && !Current(View(), run)
                        && View() == State(free, old(live)[run.base := r.value],
                             old(generations)[run.base := run.generation + 1], old(loans) - {run.base})
      ensures free == old(free)
      ensures old(Partitioned()) ==> Conserves(old(View()), View(), iset{}, 0)
    {
      OthersMean(View(), OpReclaim(run, borrower));
      hide WellFormed, Conserves, Inv;
      r := Validate(State(free, live, generations, loans), run);
      if r.Err? { return; }
      if run.base !in loans { return Err(NotLent); }
      if loans[run.base] != borrower { return Err(ForeignBorrower); }
      if r.value.generation + 1 >= U64_LIMIT { return Err(GenerationOverflow); }
      var reclaimed := r.value.(generation := r.value.generation + 1);
      loans := loans - {run.base};
      generations := generations[run.base := reclaimed.generation];
      live := live[run.base := reclaimed];
      r := Ok(reclaimed);
    }

    method SplitRecord(run: FrameRun, leftPages: u64) returns (r: Result<(FrameRun, FrameRun), FrameError>)
      modifies this`live, this`generations
      ensures (View(), r) == Spec.SplitAllocated(old(View()), run, leftPages)
    {
      var checked := Validate(State(free, live, generations, loans), run);
      if checked.Err? { return Err(checked.error); }
      if run.base in loans { return Err(AlreadyLent); }
      r := Split(checked.value, leftPages);
      if r.Err? { return; }
      var (left, right) := r.value;
      live := (live - {run.base})[left.base := left][right.base := right];
      if right.base !in generations { generations := generations[right.base := right.generation]; }
    }

    method SplitAllocated(run: FrameRun, leftPages: u64) returns (r: Result<(FrameRun, FrameRun), FrameError>)
      requires Valid()
      modifies this
      ensures Valid() && (View(), r) == Spec.SplitAllocated(old(View()), run, leftPages)
      ensures r.Ok? <==> Current(old(View()), run) && run.base !in old(loans) && 0 < leftPages < run.pages
      ensures r.Err? ==> View() == old(View())
      ensures r.Ok? ==> SplitInto(old(View()), View(), run, leftPages, r.value.0, r.value.1)
      ensures old(Partitioned()) ==> Conserves(old(View()), View(), iset{}, 0)
    {
      hide Spec.SplitAllocated, WellFormed, Conserves, Inv, SplitInto;
      OthersMean(View(), OpSplit(run, leftPages));
      SplitGuards(View(), run, leftPages);
      r := SplitRecord(run, leftPages);
    }

    method JoinRecords(left: FrameRun, right: FrameRun) returns (r: Result<FrameRun, FrameError>)
      modifies this`live
      ensures (View(), r) == Spec.JoinAllocated(old(View()), left, right)
    {
      var state := State(free, live, generations, loans);
      var l := Validate(state, left);
      if l.Err? { return l; }
      r := Validate(state, right);
      if r.Err? { return; }
      if left.base in loans || right.base in loans { return Err(AlreadyLent); }
      r := Join(l.value, r.value);
      if r.Err? { return; }
      live := (live - {left.base} - {right.base})[r.value.base := r.value];
    }

    method JoinAllocated(left: FrameRun, right: FrameRun) returns (r: Result<FrameRun, FrameError>)
      requires Valid()
      modifies this`live
      ensures Valid() && (View(), r) == Spec.JoinAllocated(old(View()), left, right)
      ensures r.Ok? <==> Joinable(old(View()), left, right)
      ensures r.Err? ==> View() == old(View())
      ensures r.Ok? ==> && r.value == old(live)[left.base].(pages := left.pages + right.pages) && !Current(View(), right)
                        && live == (old(live) - {right.base})[left.base := r.value]
      ensures old(Partitioned()) ==> Conserves(old(View()), View(), iset{}, 0)
    {
      hide Spec.JoinAllocated, WellFormed, Conserves, Inv, Joinable;
      OthersMean(View(), OpJoin(left, right));
      JoinGuards(View(), left, right);
      r := JoinRecords(left, right);
    }

    method DropRun(run: FrameRun) returns (r: Result<(), FrameError>)
      modifies this
      ensures (View(), r) == Spec.Release(old(View()), run)
    {
      hide Coalesce;
      var checked := Validate(State(free, live, generations, loans), run);
      if checked.Err? { return Err(checked.error); }
      if run.base in loans { return Err(AlreadyLent); }
      live := live - {run.base};
      if run.generation + 1 >= U64_LIMIT { return Err(GenerationOverflow); }
      generations := generations[run.base := run.generation + 1];
      free := free[run.base := run.pages];
      CoalesceFree();
      r := Ok(());
    }

    method Release(run: FrameRun) returns (r: Result<(), FrameError>)
      requires Valid()
      modifies this
      ensures Valid() && (View(), r) == Spec.Release(old(View()), run)
      ensures r.Ok? <==> Current(old(View()), run) && run.base !in old(loans) && run.generation + 1 < U64_LIMIT
      ensures r.Err? ==> (View() == old(View()) <==> r.error != GenerationOverflow)
      ensures r.Ok? ==> && live == old(live) - {run.base} && loans == old(loans)
                        && generations == old(generations)[run.base := run.generation + 1]
      ensures old(Partitioned()) ==> (Conserves(old(View()), View(), iset{}, 0) <==> Clean(old(View()), OpRelease(run)))
    {
      hide Spec.Release, WellFormed, Conserves, Clean, Inv;
      ReleaseMeans(View(), run);
      r := DropRun(run);
    }

    method FreePages() returns (n: int)
      ensures n == Total(free)
    {
      var keys := Sorted(free.Keys);
      n := 0;
      var i := 0;
      assert AllIn(free, keys);
      hide Total, SumOver, Sorted;
      while i < |keys|
        invariant 0 <= i <= |keys| && AllIn(free, keys)
        invariant n == SumOver(free, keys[..i])
      {
        SumNext(free, keys, i);
        n := n + free[keys[i]];
        i := i + 1;
      }
      assert keys[..|keys|] == keys;
      SumSorted(free, keys);
    }
  }

  // The sum of free pages fits the 64-bit counter it is returned in, with room to spare.
  lemma FreePagesFit(s: State)
    requires Inv(s)
    ensures 0 <= Total(s.free) && Total(s.free) * PAGE_SIZE <= U64_LIMIT
  {
    TotalBounded(s.free, 0, U64_LIMIT);
  }
}

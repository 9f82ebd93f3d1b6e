/** Pairs of block maps, free and live, that share no address: the moves the
    frame allocator makes between them. */
module BlockPairs {
  import opened Machine
  import opened Ordered
  import opened Blocks
  import opened Frames

  ghost predicate Exclusive(free: map<int, int>, live: map<int, int>) {
    forall a :: !(Covers(free, a) && Covers(live, a))
  }

  // Free blocks are in maximal normal form, live runs do not overlap, and no
  // address is both free and live.
  ghost predicate Parted(free: map<int, int>, live: map<int, int>) {
    Normal(free) && Separate(live) && Exclusive(free, live)
  }

  ghost predicate Either(free: map<int, int>, live: map<int, int>, a: int) {
    Covers(free, a) || Covers(live, a)
  }

  lemma InsertSeparate(m: map<int, int>, k: int, p: int)
    requires Separate(m) && Good(k, p)
    requires forall a :: In(k, p, a) ==> !Covers(m, a)
    ensures k !in m && Separate(m[k := p])
  {
    assert In(k, p, k);
    forall b | b in m
      ensures b != k && (b < k ==> End(b, m[b]) <= k) && (k < b ==> End(k, p) <= b)
    {
      assert In(b, m[b], b);
      assert In(b, m[b], k) ==> Covers(m, k);
      assert In(k, p, b) ==> !Covers(m, b);
    }
  }

  lemma CoalesceInsert(free: map<int, int>, base: int, pages: int)
    requires Normal(free) && Good(base, pages)
    requires forall a :: In(base, pages, a) ==> !Covers(free, a)
    ensures Normal(Coalesce(free[base := pages]))
    ensures forall a :: Covers(Coalesce(free[base := pages]), a) <==> Covers(free, a) || In(base, pages, a)
    ensures Total(Coalesce(free[base := pages])) == Total(free) + pages
  {
    InsertSeparate(free, base, pages);
    CoversInsert(free, base, pages);
    TotalInsert(free, base, pages);
    CoalesceIsNormalForm(free[base := pages]);
  }

  // The block at `base`, with [up, up + pages) inside it.
  predicate Inside(free: map<int, int>, base: int, up: int, pages: int) {
    && base in free && base <= up && base % PAGE_SIZE == 0 && up % PAGE_SIZE == 0 && pages > 0
    && End(up, pages) <= End(base, free[base])
  }

  lemma CarveNormal(free: map<int, int>, base: int, up: int, pages: int)
    requires AllGood(free) && Inside(free, base, up, pages)
    ensures AllGood(Carve(free, base, up, pages))
    ensures Normal(free) ==> Normal(Carve(free, base, up, pages))
  {
    PrefixArithmetic(base, up, pages, free[base]);
    assert (up - base) % PAGE_SIZE == 0;
  }

  lemma CarveTotal(free: map<int, int>, base: int, up: int, pages: int)
    requires Normal(free) && Inside(free, base, up, pages)
    ensures Total(Carve(free, base, up, pages)) == Total(free) - pages
  {
    var prefix := (up - base) / PAGE_SIZE;
    var suffix := free[base] - prefix - pages;
    var removed := free - {base};
    TotalRemove(free, base);
    var front := if prefix != 0 then removed[base := prefix] else removed;
    if prefix != 0 { TotalInsert(removed, base, prefix); }
    if suffix != 0 {
      assert up + pages * PAGE_SIZE !in front by { TailIsNew(free, base, up, pages); }
      TotalInsert(front, up + pages * PAGE_SIZE, suffix);
    }
  }

  lemma TailIsNew(free: map<int, int>, base: int, up: int, pages: int)
    requires Normal(free) && Inside(free, base, up, pages)
    ensures free[base] - (up - base) / PAGE_SIZE - pages != 0 ==> up + pages * PAGE_SIZE !in free
  {
    PrefixArithmetic(base, up, pages, free[base]);
    assert (up - base) % PAGE_SIZE == 0;
  }

  lemma CarveCovers(free: map<int, int>, base: int, up: int, pages: int, a: int)
    requires Normal(free) && Inside(free, base, up, pages)
    ensures Covers(Carve(free, base, up, pages), a) <==> Covers(free, a) && !In(up, pages, a)
  {
    var carved := Carve(free, base, up, pages);
    var tail := up + pages * PAGE_SIZE;
    assert (up - base) % PAGE_SIZE == 0;
    TailIsNew(free, base, up, pages);
    if Covers(carved, a) {
      var b :| b in carved && In(b, carved[b], a);
      if b == base || (b == tail && tail !in free) {
        assert In(base, free[base], a);
      } else {
        assert In(b, free[b], a);
      }
    }
    if Covers(free, a) && !In(up, pages, a) {
      var b :| b in free && In(b, free[b], a);
      if b != base {
        assert In(b, carved[b], a);
      } else if a < up {
        assert In(base, carved[base], a);
      } else {
        assert In(tail, carved[tail], a);
      }
    }
  }

  // `add_region`: a fresh region becomes free.
  lemma AddMove(free: map<int, int>, live: map<int, int>, base: int, pages: int)
    requires Parted(free, live) && Good(base, pages)
    requires forall a :: In(base, pages, a) ==> !Covers(free, a)
    ensures var f := Coalesce(free[base := pages]);
      && Normal(f) && Total(f) == Total(free) + pages
      && (Exclusive(f, live) <==> forall a :: In(base, pages, a) ==> !Covers(live, a))
      && forall a :: Either(f, live, a) <==> Either(free, live, a) || In(base, pages, a)
  {
    CoalesceInsert(free, base, pages);
    var f := Coalesce(free[base := pages]);
    if Exclusive(f, live) {
      forall a | In(base, pages, a)
        ensures !Covers(live, a)
      {
        assert Covers(f, a);
      }
    }
  }

  // `allocate`: a run inside a free block becomes live.
  lemma TakeMove(free: map<int, int>, live: map<int, int>, base: int, up: int, pages: int)
    requires Parted(free, live) && Inside(free, base, up, pages)
    ensures var f, l := Carve(free, base, up, pages), live[up := pages];
      && Parted(f, l) && Total(f) + Total(l) == Total(free) + Total(live)
      && forall a :: Either(f, l, a) <==> Either(free, live, a)
  {
    var f, l := Carve(free, base, up, pages), live[up := pages];
    CarveNormal(free, base, up, pages);
    CarveTotal(free, base, up, pages);
    forall a
      ensures Covers(f, a) <==> Covers(free, a) && !In(up, pages, a)
      ensures In(up, pages, a) ==> Covers(free, a) && !Covers(live, a)
    {
      CarveCovers(free, base, up, pages, a);
      if In(up, pages, a) { assert In(base, free[base], a); }
    }
    InsertSeparate(live, up, pages);
    CoversInsert(live, up, pages);
    TotalInsert(live, up, pages);
  }

  // `release`: a live run becomes free.
  lemma ReturnMove(free: map<int, int>, live: map<int, int>, base: int)
    requires Parted(free, live) && base in live
    ensures var f, l := Coalesce(free[base := live[base]]), live - {base};
      && Parted(f, l) && Total(f) + Total(l) == Total(free) + Total(live)
      && forall a :: Either(f, l, a) <==> Either(free, live, a)
  {
    CoversRemove(live, base);
    TotalRemove(live, base);
    forall a | In(base, live[base], a)
      ensures Covers(live, a)
    {
    }
    CoalesceInsert(free, base, live[base]);
  }

  // `release` with the last generation: the run is lost.
  lemma LostMove(free: map<int, int>, live: map<int, int>, base: int)
    requires Parted(free, live) && base in live
    ensures Either(free, live, base) && !Either(free, live - {base}, base)
  {
    assert In(base, live[base], base);
    CoversRemove(live, base);
  }

  // A block cut in two covers the same addresses.
  lemma CutSeparate(m: map<int, int>, base: int, left: int)
    requires Separate(m) && base in m && 0 < left < m[base]
    ensures End(base, left) !in m && base < End(base, left)
    ensures Separate(m[base := left][End(base, left) := m[base] - left])
  {
    var mid := End(base, left);
    assert mid % PAGE_SIZE == 0;
    assert forall b :: b in m && base < b ==> mid < b;
  }

  lemma CutCovers(m: map<int, int>, base: int, left: int)
    requires Separate(m) && base in m && 0 < left < m[base]
    ensures SameCover(m[base := left][End(base, left) := m[base] - left], m)
  {
    var mid := End(base, left);
    CutSeparate(m, base, left);
    var cut := m[base := left][mid := m[base] - left];
    forall a
      ensures Covers(cut, a) <==> Covers(m, a)
    {
      if Covers(cut, a) {
        var b :| b in cut && In(b, cut[b], a);
        if b == mid || b == base { assert In(base, m[base], a); } else { assert In(b, m[b], a); }
      }
      if Covers(m, a) {
        var b :| b in m && In(b, m[b], a);
        if b != base { assert In(b, cut[b], a); }
        else if a < mid { assert In(base, cut[base], a); }
        else { assert In(mid, cut[mid], a); }
      }
    }
  }

  lemma CutTotal(m: map<int, int>, base: int, left: int)
    requires Separate(m) && base in m && 0 < left < m[base]
    ensures Total(m[base := left][End(base, left) := m[base] - left]) == Total(m)
  {
    CutSeparate(m, base, left);
    var shrunk := m[base := left];
    TotalRemove(m, base);
    TotalRemove(shrunk, base);
    assert shrunk - {base} == m - {base};
    TotalInsert(shrunk, End(base, left), m[base] - left);
  }

  lemma SameLiveMove(free: map<int, int>, live: map<int, int>, l: map<int, int>)
    requires Separate(live) && Separate(l) && SameCover(l, live)
    ensures Parted(free, l) <==> Parted(free, live)
    ensures forall a :: Either(free, l, a) <==> Either(free, live, a)
  {
  }

  lemma CutMove(free: map<int, int>, live: map<int, int>, base: int, left: int)
    requires Parted(free, live) && base in live && 0 < left < live[base]
    ensures var l := live[base := left][End(base, left) := live[base] - left];
      && Parted(free, l) && Total(l) == Total(live)
      && forall a :: Either(free, l, a) <==> Either(free, live, a)
  {
    CutSeparate(live, base, left);
    CutCovers(live, base, left);
    CutTotal(live, base, left);
    SameLiveMove(free, live, live[base := left][End(base, left) := live[base] - left]);
  }

  // Joining a run with the one that follows it, and cutting the result at the seam.
  lemma JoinIsUncut(live: map<int, int>, base: int, right: int, l: map<int, int>)
    requires Separate(live) && base in live && right == End(base, live[base]) && right in live
    requires l == (live - {right})[base := live[base] + live[right]]
    ensures Separate(l) && 0 < live[base] < l[base]
    ensures live == l[base := live[base]][right := l[base] - live[base]]
  {
  }

  lemma UncutMove(free: map<int, int>, live: map<int, int>, l: map<int, int>, base: int, left: int)
    requires Parted(free, live) && Separate(l) && base in l && 0 < left < l[base]
    requires live == l[base := left][End(base, left) := l[base] - left]
    ensures Parted(free, l) && Total(l) == Total(live)
    ensures forall a :: Either(free, l, a) <==> Either(free, live, a)
  {
    CutCovers(l, base, left);
    CutTotal(l, base, left);
    SameLiveMove(free, live, l);
  }

  lemma JoinMove(free: map<int, int>, live: map<int, int>, base: int, right: int, l: map<int, int>)
    requires Parted(free, live) && base in live && right == End(base, live[base]) && right in live
    requires l == (live - {right})[base := live[base] + live[right]]
    ensures Parted(free, l) && Total(l) == Total(live)
    ensures forall a :: Either(free, l, a) <==> Either(free, live, a)
  {
    JoinIsUncut(live, base, right, l);
    UncutMove(free, live, l, base, live[base]);
  }
}

/** Conservation of frames: free pages and live runs partition the pages added. */
module FramePartition {
  import opened Wrappers
  import opened Machine
  import opened Ordered
  import opened Blocks
  import opened Frames
  import opened BlockPairs

  ghost function Live(s: State): map<int, int> {
    map b | b in s.live :: s.live[b].pages
  }

  ghost predicate Inv(s: State) {
    WellFormed(s) && Parted(s.free, Live(s))
  }

  ghost predicate OwnedAt(s: State, a: int) {
    Either(s.free, Live(s), a)
  }

  ghost function Pages(s: State): int {
    Total(s.free) + Total(Live(s))
  }

  // ---------------------------------------------------------------------
  // Every operation keeps WellFormed

  lemma AllocateChoice(s: State, pages: u64, alignmentPages: u64) returns (b: int, up: int)
    requires WellFormed(s) && Allocate(s, pages, alignmentPages).1.Ok?
    ensures Inside(s.free, b, up, pages)
    ensures var run := FrameRun(up, pages, Counter(s, up), false);
      Allocate(s, pages, alignmentPages)
      == (s.(free := Carve(s.free, b, up, pages), live := s.live[up := run]), Ok(run))
  {
    var alignment := alignmentPages * PAGE_SIZE;
    var n, m := AlignmentShape(alignmentPages, alignment);
    var keys := Sorted(s.free.Keys);
    FirstFitIsKey(s.free, keys, pages, alignment);
    var choice := FirstFit(s.free, keys, pages, alignment).value;
    b, up := choice.0, choice.1;
    ChosenIsFree(s.free, b, up, pages, alignment, n, m);
  }

  lemma AllocateWellFormed(s: State, pages: u64, alignmentPages: u64)
    requires WellFormed(s)
    ensures WellFormed(Allocate(s, pages, alignmentPages).0)
  {
    if Allocate(s, pages, alignmentPages).1.Ok? {
      hide Allocate, Carve, WellFormed, Inside;
      var b, up := AllocateChoice(s, pages, alignmentPages);
      TakeWellFormed(s, b, up, pages);
    } else {
      NothingAllocated(s, pages, alignmentPages);
    }
  }

  lemma NothingAllocated(s: State, pages: u64, alignmentPages: u64)
    requires WellFormed(s) && Allocate(s, pages, alignmentPages).1.Err?
    ensures Allocate(s, pages, alignmentPages).0 == s
  {
    hide WellFormed, FirstFit, Carve;
  }

  lemma TakeWellFormed(s: State, b: int, up: int, pages: int)
    requires WellFormed(s) && Inside(s.free, b, up, pages)
    ensures WellFormed(s.(free := Carve(s.free, b, up, pages),
                          live := s.live[up := FrameRun(up, pages, Counter(s, up), false)]))
  {
    hide Carve;
    CarveNormal(s.free, b, up, pages);
  }

  lemma ReleaseWellFormed(s: State, run: FrameRun)
    requires WellFormed(s)
    ensures WellFormed(Release(s, run).0)
  {
    hide Coalesce;
    if Release(s, run).1.Ok? { CoalesceGood(s.free[run.base := run.pages]); }
  }

  lemma AddWellFormed(s: State, base: u64, pages: u64)
    requires WellFormed(s)
    ensures WellFormed(AddRegion(s, base, pages).0)
  {
    hide Coalesce;
    if AddRegion(s, base, pages).1.Ok? { CoalesceGood(s.free[base := pages]); }
  }

  lemma CoalesceGood(src: map<int, int>)
    requires AllGood(src)
    ensures AllGood(Coalesce(src))
  {
    CoalesceKeysGood(src, Sorted(src.Keys));
  }

  lemma StepWellFormed(s: State, op: Op)
    requires WellFormed(s)
    ensures WellFormed(Step(s, op))
  {
    hide Allocate, AddRegion, Release;
    match op {
      case OpAdd(base, pages) => AddWellFormed(s, base, pages);
      case OpAllocate(pages, alignmentPages) => AllocateWellFormed(s, pages, alignmentPages);
      case OpRelease(run) => ReleaseWellFormed(s, run);
      case _ =>
    }
  }

  // ---------------------------------------------------------------------
  // Every operation keeps the partition

  ghost function Region(base: int, pages: int): iset<int> {
    iset a | In(base, pages, a)
  }

  // The addresses a successful `add_region` contributes.
  ghost function Contribution(s: State, op: Op): iset<int>
    requires WellFormed(s)
  {
    if op.OpAdd? && AddRegion(s, op.base, op.pages).1.Ok? then Region(op.base, op.pages) else iset{}
  }

  ghost function ContributedPages(s: State, op: Op): int
    requires WellFormed(s)
  {
    if op.OpAdd? && AddRegion(s, op.base, op.pages).1.Ok? then op.pages else 0
  }

  // State t keeps the invariant, and owns what s owns and `added` besides.
  ghost predicate Conserves(s: State, t: State, added: iset<int>, pages: int) {
    && Inv(t)
    && (forall a :: OwnedAt(t, a) <==> OwnedAt(s, a) || a in added)
    && Pages(t) == Pages(s) + pages
  }

  ghost predicate Kept(s: State, op: Op)
    requires WellFormed(s)
  {
    Conserves(s, Step(s, op), Contribution(s, op), ContributedPages(s, op))
  }

  // What a caller must respect: regions avoid live runs, and the last
  // generation of a base is never released.
  predicate Clean(s: State, op: Op) {
    match op
    case OpAdd(base, pages) =>
      && 0 < pages && base % PAGE_SIZE == 0 && End(base, pages) < U64_LIMIT
      && !OverlapsFree(s.free, base, End(base, pages))
      ==> AvoidsLive(s, base, pages)
    case OpRelease(run) =>
      run.generation == U64_MAX && run.base in s.live && run.base !in s.loans ==>
        s.live[run.base].generation != run.generation || s.live[run.base].pages != run.pages
    case _ => true
  }

  predicate AvoidsLive(s: State, base: int, pages: int) {
    forall b :: b in s.live ==> End(b, s.live[b].pages) <= base || End(base, pages) <= b
  }

  lemma AcceptedRegionIsNew(s: State, base: u64, pages: u64)
    requires WellFormed(s) && AddRegion(s, base, pages).1.Ok?
    ensures Good(base, pages) && forall a :: In(base, pages, a) ==> !Covers(s.free, a)
  {
    forall a | In(base, pages, a)
      ensures !Covers(s.free, a)
    {
      assert Covers(s.free, a) ==> exists b :: b in s.free && In(b, s.free[b], a) && b < End(base, pages);
    }
  }

  lemma AvoidsLiveAddresses(s: State, base: int, pages: int)
    requires WellFormed(s) && Good(base, pages)
    ensures AvoidsLive(s, base, pages) <==> forall a :: In(base, pages, a) ==> !Covers(Live(s), a)
  {
    if AvoidsLive(s, base, pages) {
      forall a | Covers(Live(s), a)
        ensures !In(base, pages, a)
      {
        var b :| b in Live(s) && In(b, Live(s)[b], a);
      }
    } else {
      var b :| b in s.live && !(End(b, s.live[b].pages) <= base || End(base, pages) <= b);
      var a := if b < base then base else b;
      assert In(b, Live(s)[b], a) && Covers(Live(s), a);
      assert In(base, pages, a);
    }
  }

  lemma AddConserves(s: State, t: State, base: int, pages: int)
    requires Inv(s) && WellFormed(t) && Good(base, pages)
    requires forall a :: In(base, pages, a) ==> !Covers(s.free, a)
    requires t == s.(free := Coalesce(s.free[base := pages]))
    ensures Conserves(s, t, Region(base, pages), pages) <==> AvoidsLive(s, base, pages)
  {
    assert Live(t) == Live(s);
    hide Live, Coalesce, Covers, WellFormed, AvoidsLive, Either, Conserves, Normal, Separate, Exclusive;
    AvoidsLiveAddresses(s, base, pages);
    AddMove(s.free, Live(s), base, pages);
    ConservesWhenExclusive(s, t, base, pages);
  }

  lemma ConservesWhenExclusive(s: State, t: State, base: int, pages: int)
    requires Inv(s) && WellFormed(t) && Live(t) == Live(s) && Normal(t.free) && Total(t.free) == Total(s.free) + pages
    requires forall a :: Either(t.free, Live(s), a) <==> Either(s.free, Live(s), a) || In(base, pages, a)
    ensures Conserves(s, t, Region(base, pages), pages) <==> Exclusive(t.free, Live(s))
  {
    hide Live, Covers, WellFormed, Either, Normal, Separate, Exclusive, Total;
  }

  lemma AddKeeps(s: State, base: u64, pages: u64)
    requires Inv(s) && AddRegion(s, base, pages).1.Ok?
    ensures Kept(s, OpAdd(base, pages)) <==> AvoidsLive(s, base, pages)
  {
    StepWellFormed(s, OpAdd(base, pages));
    AcceptedRegionIsNew(s, base, pages);
    AddConserves(s, Step(s, OpAdd(base, pages)), base, pages);
  }

  lemma MovesConserve(s: State, t: State)
    requires Inv(s) && WellFormed(t) && Parted(t.free, Live(t))
    requires Total(t.free) + Total(Live(t)) == Total(s.free) + Total(Live(s))
    requires forall a :: Either(t.free, Live(t), a) <==> Either(s.free, Live(s), a)
    ensures Conserves(s, t, iset{}, 0)
  {
  }

  lemma LiveInsert(s: State, t: State, run: FrameRun)
    requires t.live == s.live[run.base := run]
    ensures Live(t) == Live(s)[run.base := run.pages]
  {
  }

  lemma TakeConserves(s: State, t: State, b: int, up: int, pages: int)
    requires Inv(s) && WellFormed(t) && Inside(s.free, b, up, pages)
    requires t.free == Carve(s.free, b, up, pages) && Live(t) == Live(s)[up := pages]
    ensures Conserves(s, t, iset{}, 0)
  {
    TakeMove(s.free, Live(s), b, up, pages);
    MovesConserve(s, t);
  }

  lemma AllocateKeeps(s: State, pages: u64, alignmentPages: u64)
    requires Inv(s) && Allocate(s, pages, alignmentPages).1.Ok?
    ensures Kept(s, OpAllocate(pages, alignmentPages))
  {
    StepWellFormed(s, OpAllocate(pages, alignmentPages));
    var b, up := AllocateChoice(s, pages, alignmentPages);
    var t := Step(s, OpAllocate(pages, alignmentPages));
    LiveInsert(s, t, FrameRun(up, pages, Counter(s, up), false));
    TakeConserves(s, t, b, up, pages);
  }

  lemma ReturnConserves(s: State, t: State, base: int)
    requires Inv(s) && WellFormed(t) && base in s.live && Live(t) == Live(s) - {base}
    ensures t.free == Coalesce(s.free[base := s.live[base].pages]) ==> Conserves(s, t, iset{}, 0)
    ensures t.free == s.free ==> !Conserves(s, t, iset{}, 0)
  {
    ReturnMove(s.free, Live(s), base);
    LostMove(s.free, Live(s), base);
    assert t.free == s.free ==> OwnedAt(s, base) && !OwnedAt(t, base);
  }

  lemma ReleaseKeeps(s: State, run: FrameRun)
    requires Inv(s) && Validate(s, run).Ok? && run.base !in s.loans
    ensures Kept(s, OpRelease(run)) <==> run.generation < U64_MAX
  {
    var t := Step(s, OpRelease(run));
    StepWellFormed(s, OpRelease(run));
    assert Live(t) == Live(s) - {run.base};
    ReturnConserves(s, t, run.base);
  }

  lemma SplitShape(s: State, run: FrameRun, leftPages: u64)
    requires WellFormed(s) && SplitAllocated(s, run, leftPages).1.Ok?
    ensures var t, mid := SplitAllocated(s, run, leftPages).0, End(run.base, leftPages);
      && 0 < leftPages < run.pages && run.base in s.live && run.pages == s.live[run.base].pages
      && t.free == s.free
      && Live(t) == Live(s)[run.base := leftPages][mid := run.pages - leftPages]
  {
  }

  lemma SplitConserves(s: State, t: State, base: int, left: int)
    requires Inv(s) && WellFormed(t) && t.free == s.free && base in Live(s) && 0 < left < Live(s)[base]
    requires Live(t) == Live(s)[base := left][End(base, left) := Live(s)[base] - left]
    ensures Conserves(s, t, iset{}, 0)
  {
    CutMove(s.free, Live(s), base, left);
    MovesConserve(s, t);
  }

  lemma SplitKeeps(s: State, run: FrameRun, leftPages: u64)
    requires Inv(s) && SplitAllocated(s, run, leftPages).1.Ok?
    ensures Kept(s, OpSplit(run, leftPages))
  {
    SplitShape(s, run, leftPages);
    StepWellFormed(s, OpSplit(run, leftPages));
    SplitConserves(s, Step(s, OpSplit(run, leftPages)), run.base, leftPages);
  }

  lemma JoinShape(s: State, left: FrameRun, right: FrameRun)
    requires WellFormed(s) && JoinAllocated(s, left, right).1.Ok?
    ensures var t := JoinAllocated(s, left, right).0;
      && left.base in s.live && left.pages == s.live[left.base].pages
      && right.base in s.live && right.pages == s.live[right.base].pages
      && right.base == End(left.base, left.pages)
      && t.free == s.free
      && Live(t) == (Live(s) - {right.base})[left.base := left.pages + right.pages]
  {
  }

  lemma JoinConserves(s: State, t: State, left: int)
    requires Inv(s) && WellFormed(t) && t.free == s.free
    requires left in Live(s) && End(left, Live(s)[left]) in Live(s)
    requires var right := End(left, Live(s)[left]);
      Live(t) == (Live(s) - {right})[left := Live(s)[left] + Live(s)[right]]
    ensures Conserves(s, t, iset{}, 0)
  {
    JoinMove(s.free, Live(s), left, End(left, Live(s)[left]), Live(t));
    MovesConserve(s, t);
  }

  lemma JoinKeeps(s: State, left: FrameRun, right: FrameRun)
    requires Inv(s) && JoinAllocated(s, left, right).1.Ok?
    ensures Kept(s, OpJoin(left, right))
  {
    JoinShape(s, left, right);
    StepWellFormed(s, OpJoin(left, right));
    JoinConserves(s, Step(s, OpJoin(left, right)), left.base);
  }

  lemma SameBlocksKeep(s: State, op: Op)
    requires Inv(s) && Step(s, op).free == s.free && Live(Step(s, op)) == Live(s)
    requires Contribution(s, op) == iset{} && ContributedPages(s, op) == 0
    ensures Kept(s, op)
  {
    StepWellFormed(s, op);
  }

  // An operation keeps the partition exactly when it is clean; every
  // operation but add and release always does.
  lemma KeepsPartitionExactlyWhenClean(s: State, op: Op)
    requires Inv(s)
    ensures Kept(s, op) <==> Clean(s, op)
  {
    match op {
      case OpAdd(base, pages) => AddExactly(s, base, pages);
      case OpRelease(run) => ReleaseExactly(s, run);
      case OpAllocate(pages, alignmentPages) => AllocateAlwaysKeeps(s, pages, alignmentPages);
      case OpSplit(run, leftPages) => SplitAlwaysKeeps(s, run, leftPages);
      case OpJoin(left, right) => JoinAlwaysKeeps(s, left, right);
      case _ => AccountsKeep(s, op);
    }
    hide Kept, Clean, Inv;
  }

  lemma AddExactly(s: State, base: u64, pages: u64)
    requires Inv(s)
    ensures Kept(s, OpAdd(base, pages)) <==> Clean(s, OpAdd(base, pages))
  {
    if AddRegion(s, base, pages).1.Ok? {
      AddKeeps(s, base, pages);
    } else {
      SameBlocksKeep(s, OpAdd(base, pages));
    }
    hide Kept, Inv, OverlapsFree, AvoidsLive;
  }

  lemma ReleaseExactly(s: State, run: FrameRun)
    requires Inv(s)
    ensures Kept(s, OpRelease(run)) <==> Clean(s, OpRelease(run))
  {
    if Validate(s, run).Ok? && run.base !in s.loans {
      ReleaseKeeps(s, run);
    } else {
      SameBlocksKeep(s, OpRelease(run));
    }
    hide Kept, Inv;
  }

  lemma AllocateAlwaysKeeps(s: State, pages: u64, alignmentPages: u64)
    requires Inv(s)
    ensures Kept(s, OpAllocate(pages, alignmentPages))
  {
    if Allocate(s, pages, alignmentPages).1.Ok? {
      AllocateKeeps(s, pages, alignmentPages);
    } else {
      NothingAllocated(s, pages, alignmentPages);
      SameBlocksKeep(s, OpAllocate(pages, alignmentPages));
    }
    hide Kept, Inv;
  }

  lemma SplitAlwaysKeeps(s: State, run: FrameRun, leftPages: u64)
    requires Inv(s)
    ensures Kept(s, OpSplit(run, leftPages))
  {
    if SplitAllocated(s, run, leftPages).1.Ok? {
      SplitKeeps(s, run, leftPages);
    } else {
      SameBlocksKeep(s, OpSplit(run, leftPages));
    }
    hide Kept, Inv;
  }

  lemma JoinAlwaysKeeps(s: State, left: FrameRun, right: FrameRun)
    requires Inv(s)
    ensures Kept(s, OpJoin(left, right))
  {
    if JoinAllocated(s, left, right).1.Ok? {
      JoinKeeps(s, left, right);
    } else {
      SameBlocksKeep(s, OpJoin(left, right));
    }
    hide Kept, Inv;
  }

  // Zeroing and loans move no pages.
  lemma AccountsKeep(s: State, op: Op)
    requires Inv(s) && (op.OpZero? || op.OpLend? || op.OpReclaim?)
    ensures Kept(s, op)
  {
    assert Live(Step(s, op)) == Live(s);
    SameBlocksKeep(s, op);
  }

  // ---------------------------------------------------------------------
  // Whole runs

  function RunFrom(s: State, ops: seq<Op>): (t: State)
    requires WellFormed(s)
    ensures WellFormed(t)
  {
    if ops == [] then s
    else
      var t := RunFrom(s, ops[..|ops| - 1]);
      StepWellFormed(t, ops[|ops| - 1]);
      Step(t, ops[|ops| - 1])
  }

  function Run(ops: seq<Op>): (t: State)
    ensures WellFormed(t)
  {
    RunFrom(Init, ops)
  }

  ghost predicate CleanRun(ops: seq<Op>) {
    ops == [] || var n := |ops| - 1; Clean(Run(ops[..n]), ops[n]) && CleanRun(ops[..n])
  }

  // Address a lies in some region that `add_region` accepted during the run.
  ghost predicate AddedAt(ops: seq<Op>, a: int) {
    ops != [] && var n := |ops| - 1; a in Contribution(Run(ops[..n]), ops[n]) || AddedAt(ops[..n], a)
  }

  ghost function PagesAdded(ops: seq<Op>): int {
    if ops == [] then 0
    else var n := |ops| - 1; PagesAdded(ops[..n]) + ContributedPages(Run(ops[..n]), ops[n])
  }

  // What a run owes: the invariant, exactly the added addresses, and their number.
  ghost predicate Accounted(ops: seq<Op>, s: State) {
    && Inv(s)
    && (forall a :: OwnedAt(s, a) <==> AddedAt(ops, a))
    && Pages(s) == PagesAdded(ops)
  }

  lemma AccountedStep(init: seq<Op>, op: Op, s: State)
    requires WellFormed(s) && s == Run(init) && Accounted(init, s) && Kept(s, op)
    ensures Accounted(init + [op], Step(s, op))
  {
    var ops := init + [op];
    assert ops[..|ops| - 1] == init;
    assert forall a :: AddedAt(ops, a) <==> a in Contribution(s, op) || AddedAt(init, a);
    assert PagesAdded(ops) == PagesAdded(init) + ContributedPages(s, op);
  }

  lemma AccountedEmpty()
    ensures Accounted([], Init)
  {
    assert Live(Init) == map[];
  }

  lemma RunSnoc(ops: seq<Op>, op: Op)
    ensures Run(ops + [op]) == Step(Run(ops), op)
  {
    hide Step;
    assert (ops + [op])[..|ops|] == ops;
  }

  lemma AccountedSnoc(init: seq<Op>, op: Op)
    requires Accounted(init, Run(init)) && Clean(Run(init), op)
    ensures Accounted(init + [op], Run(init + [op]))
  {
    hide Step, Kept, Clean;
    assert Inv(Run(init));
    KeepsPartitionExactlyWhenClean(Run(init), op);
    AccountedStep(init, op, Run(init));
    RunSnoc(init, op);
  }

  // In every clean run the free blocks stay in normal form, and free pages and
  // live runs partition exactly the addresses ever added; only live runs are lent.
  lemma {:induction false} RunPartitionsAddedPages(ops: seq<Op>)
    requires CleanRun(ops)
    ensures Accounted(ops, Run(ops))
    ensures Run(ops).loans.Keys <= Run(ops).live.Keys
  {
    hide Step, Accounted, Clean, AllGood, GoodRecord;
    if ops == [] {
      AccountedEmpty();
    } else {
      var n := |ops| - 1;
      var init := ops[..n];
      RunPartitionsAddedPages(init);
      AccountedSnoc(init, ops[n]);
      assert ops == init + [ops[n]];
    }
  }

  // Splitting a run and joining the two halves restores the records, and so
  // does joining two runs and splitting at the seam.
  lemma SplitThenJoin(s: State, run: FrameRun, leftPages: u64)
    requires Inv(s) && SplitAllocated(s, run, leftPages).1.Ok?
    ensures var (t, halves) := SplitAllocated(s, run, leftPages);
      var (u, joined) := JoinAllocated(t, halves.value.0, halves.value.1);
      joined == Ok(s.live[run.base]) && u.live == s.live && u.free == s.free && u.loans == s.loans
  {
    SplitShape(s, run, leftPages);
    CutSeparate(Live(s), run.base, leftPages);
    var mid := End(run.base, leftPages);
    assert mid !in s.live && mid !in s.loans;
    var t := SplitAllocated(s, run, leftPages).0;
    var live := s.live[run.base];
    assert t.live == s.live[run.base := live.(pages := leftPages)]
                           [mid := live.(base := mid, pages := live.pages - leftPages)];
    assert t.live - {run.base} - {mid} == s.live - {run.base};
  }

  lemma JoinThenSplit(s: State, left: FrameRun, right: FrameRun)
    requires Inv(s) && JoinAllocated(s, left, right).1.Ok? && left.pages < U64_LIMIT
    ensures left.pages >= 0
    ensures var (t, joined) := JoinAllocated(s, left, right);
      var (u, halves) := SplitAllocated(t, joined.value, left.pages);
      && halves == Ok((s.live[left.base], s.live[right.base]))
      && u.live == s.live && u.free == s.free && u.loans == s.loans
  {
    JoinShape(s, left, right);
    var t := JoinAllocated(s, left, right).0;
    var l := s.live[left.base];
    assert t.live == (s.live - {left.base} - {right.base})[left.base := l.(pages := left.pages + right.pages)];
    assert (t.live - {left.base})[left.base := l][right.base := s.live[right.base]] == s.live;
  }
}

/** The physical frame allocator: transitions on values, the partition invariant
    over runs of operations, and first-fit completeness. */
module Frames {
  import opened Wrappers
  import opened Machine
  import opened Ordered
  import opened Blocks
  import opened Bits

  datatype FrameRun = FrameRun(base: int, pages: int, generation: int, zeroed: bool)

  datatype FrameError =
    | Empty | Misaligned | RangeOverflow | Overlap | OutOfMemory | UnknownRun | StaleGeneration
    | NonAdjacent | GenerationOverflow | AlreadyLent | NotLent | ForeignBorrower

  datatype State = State(
    free: map<int, int>,
    live: map<int, FrameRun>,
    generations: map<int, int>,
    loans: map<int, int>)

  const Init: State := State(map[], map[], map[], map[])

  // What every operation keeps, whatever its arguments: no stored block wraps
  // at 2^64, records are filed under their base, and only live runs are lent.
  predicate WellFormed(s: State) {
    && AllGood(s.free)
    && (forall b :: b in s.live ==> GoodRecord(s.live[b], b))
    && (forall b :: b in s.generations ==> 0 <= s.generations[b] < U64_LIMIT)
    && s.loans.Keys <= s.live.Keys
  }

  predicate GoodRecord(run: FrameRun, base: int) {
    run.base == base && Good(base, run.pages) && 0 <= run.generation < U64_LIMIT
  }

  // ---------------------------------------------------------------------
  // Transitions

  function AddRegion(s: State, base: u64, pages: u64): (State, Result<(), FrameError>) {
    if pages == 0 then (s, Err(Empty))
    else if base % PAGE_SIZE != 0 then (s, Err(Misaligned))
    else if pages * PAGE_SIZE >= U64_LIMIT || End(base, pages) >= U64_LIMIT then (s, Err(RangeOverflow))
    else if OverlapsFree(s.free, base, End(base, pages)) then (s, Err(Overlap))
    else (s.(free := Coalesce(s.free[base := pages])), Ok(()))
  }

  predicate OverlapsFree(free: map<int, int>, base: int, end: int) {
    exists b :: b in free && base < Saturate(b + Saturate(free[b] * PAGE_SIZE)) && b < end
  }

  predicate IsPowerOfTwo(x: nat) {
    x == 1 || (x > 1 && x % 2 == 0 && IsPowerOfTwo(x / 2))
  }

  // Where `pages` aligned pages would start in the block at `base`, if they fit.
  function Fit(base: nat, available: int, pages: int, alignment: nat): Option<int>
    requires alignment > 0
  {
    if base + (alignment - 1) >= U64_LIMIT then None
    else
      var aligned := Clear(base + (alignment - 1), alignment - 1);
      if aligned < base then None
      else
        var prefix := (aligned - base) / PAGE_SIZE;
        if prefix + pages < U64_LIMIT && prefix + pages <= available then Some(aligned) else None
  }

  // The first block, in the order of `keys`, that fits.
  function FirstFit(free: map<int, int>, keys: seq<int>, pages: int, alignment: nat): Option<(int, int)>
    requires AllGood(free) && AllIn(free, keys) && alignment > 0
  {
    if keys == [] then None
    else match Fit(keys[0], free[keys[0]], pages, alignment)
      case Some(aligned) => Some((keys[0], aligned))
      case None => FirstFit(free, keys[1..], pages, alignment)
  }

  // Replace the block at `base` by what is left of it around [aligned, aligned + pages).
  function Carve(free: map<int, int>, base: int, aligned: int, pages: int): map<int, int>
    requires base in free
  {
    var prefix := (aligned - base) / PAGE_SIZE;
    var suffix := free[base] - prefix - pages;
    var removed := free - {base};
    var front := if prefix != 0 then removed[base := prefix] else removed;
    if suffix != 0 then front[aligned + pages * PAGE_SIZE := suffix] else front
  }

  function Counter(s: State, base: int): int {
    if base in s.generations then s.generations[base] else 0
  }

  function Allocate(s: State, pages: u64, alignmentPages: u64): (State, Result<FrameRun, FrameError>)
    requires WellFormed(s)
  {
    if pages == 0 || alignmentPages == 0 || !IsPowerOfTwo(alignmentPages) then (s, Err(Empty))
    else if alignmentPages * PAGE_SIZE >= U64_LIMIT then (s, Err(RangeOverflow))
    else AllocateAligned(s, pages, alignmentPages * PAGE_SIZE)
  }

  function AllocateAligned(s: State, pages: u64, alignment: u64): (State, Result<FrameRun, FrameError>)
    requires WellFormed(s) && alignment > 0
  {
    match FirstFit(s.free, Sorted(s.free.Keys), pages, alignment)
    case None => (s, Err(OutOfMemory))
    case Some((base, aligned)) =>
      FirstFitIsKey(s.free, Sorted(s.free.Keys), pages, alignment);
      var run := FrameRun(aligned, pages, Counter(s, aligned), false);
      (s.(free := Carve(s.free, base, aligned, pages), live := s.live[aligned := run]), Ok(run))
  }

  function Validate(s: State, run: FrameRun): Result<FrameRun, FrameError> {
    if run.base !in s.live then Err(UnknownRun)
    else
      var live := s.live[run.base];
      if live.generation != run.generation then Err(StaleGeneration)
      else if live.pages != run.pages then Err(UnknownRun)
      else Ok(live)
  }

  // The handle names a live run, at its size and generation.
  predicate Current(s: State, run: FrameRun) {
    run.base in s.live && s.live[run.base].generation == run.generation && s.live[run.base].pages == run.pages
  }

  function MarkZeroed(s: State, run: FrameRun): (State, Result<FrameRun, FrameError>) {
    match Validate(s, run)
    case Err(e) => (s, Err(e))
    case Ok(live) =>
      var zeroed := live.(zeroed := true);
      (s.(live := s.live[run.base := zeroed]), Ok(zeroed))
  }

  function Lend(s: State, run: FrameRun, borrower: u32): (State, Result<FrameRun, FrameError>) {
    match Validate(s, run)
    case Err(e) => (s, Err(e))
    case Ok(live) =>
      if run.base in s.loans then (s, Err(AlreadyLent))
      else if live.generation + 1 >= U64_LIMIT then (s, Err(GenerationOverflow))
      else
        var lent := live.(generation := live.generation + 1);
        (s.(live := s.live[run.base := lent],
            generations := s.generations[run.base := lent.generation],
            loans := s.loans[run.base := borrower]),
         Ok(lent))
  }

  function Reclaim(s: State, run: FrameRun, borrower: u32): (State, Result<FrameRun, FrameError>) {
    match Validate(s, run)
    case Err(e) => (s, Err(e))
    case Ok(live) =>
      if run.base !in s.loans then (s, Err(NotLent))
      else if s.loans[run.base] != borrower then (s, Err(ForeignBorrower))
      else if live.generation + 1 >= U64_LIMIT then (s, Err(GenerationOverflow))
      else
        var reclaimed := live.(generation := live.generation + 1);
        (s.(live := s.live[run.base := reclaimed],
            generations := s.generations[run.base := reclaimed.generation],
            loans := s.loans - {run.base}),
         Ok(reclaimed))
  }

  function Split(run: FrameRun, leftPages: u64): Result<(FrameRun, FrameRun), FrameError> {
    if leftPages == 0 || leftPages >= run.pages then Err(Empty)
    else Ok((run.(pages := leftPages),
             run.(base := End(run.base, leftPages), pages := run.pages - leftPages)))
  }

  function Join(left: FrameRun, right: FrameRun): Result<FrameRun, FrameError> {
    if left.generation != right.generation || left.zeroed != right.zeroed || End(left.base, left.pages) != right.base
    then Err(NonAdjacent)
    else if left.pages + right.pages >= U64_LIMIT then Err(RangeOverflow)
    else Ok(left.(pages := left.pages + right.pages))
  }

  function SplitAllocated(s: State, run: FrameRun, leftPages: u64)
    : (State, Result<(FrameRun, FrameRun), FrameError>)
  {
    match Validate(s, run)
    case Err(e) => (s, Err(e))
    case Ok(live) =>
      if run.base in s.loans then (s, Err(AlreadyLent))
      else match Split(live, leftPages)
        case Err(e) => (s, Err(e))
        case Ok((left, right)) =>
          (s.(live := (s.live - {run.base})[left.base := left][right.base := right],
              generations := if right.base in s.generations then s.generations
                             else s.generations[right.base := right.generation]),
           Ok((left, right)))
  }

  function JoinAllocated(s: State, left: FrameRun, right: FrameRun): (State, Result<FrameRun, FrameError>) {
    match Validate(s, left)
    case Err(e) => (s, Err(e))
    case Ok(leftLive) =>
      match Validate(s, right)
      case Err(e) => (s, Err(e))
      case Ok(rightLive) =>
        if left.base in s.loans || right.base in s.loans then (s, Err(AlreadyLent))
        else match Join(leftLive, rightLive)
          case Err(e) => (s, Err(e))
          case Ok(joined) =>
            (s.(live := (s.live - {left.base} - {right.base})[joined.base := joined]), Ok(joined))
  }

  // The record is dropped before the generation is tested, as in the source.
  function Release(s: State, run: FrameRun): (State, Result<(), FrameError>) {
    match Validate(s, run)
    case Err(e) => (s, Err(e))
    case Ok(_) =>
      if run.base in s.loans then (s, Err(AlreadyLent))
      else
        var dropped := s.(live := s.live - {run.base});
        if run.generation + 1 >= U64_LIMIT then (dropped, Err(GenerationOverflow))
        else
          (dropped.(generations := s.generations[run.base := run.generation + 1],
                    free := Coalesce(s.free[run.base := run.pages])),
           Ok(()))
  }

  datatype Op =
    | OpAdd(base: u64, pages: u64)
    | OpAllocate(count: u64, alignmentPages: u64)
    | OpZero(run: FrameRun)
    | OpLend(run: FrameRun, borrower: u32)
    | OpReclaim(run: FrameRun, borrower: u32)
    | OpSplit(run: FrameRun, leftPages: u64)
    | OpJoin(left: FrameRun, right: FrameRun)
    | OpRelease(run: FrameRun)

  function Step(s: State, op: Op): State
    requires WellFormed(s)
  {
    match op
    case OpAdd(base, pages) => AddRegion(s, base, pages).0
    case OpAllocate(pages, alignment) => Allocate(s, pages, alignment).0
    case OpZero(run) => MarkZeroed(s, run).0
    case OpLend(run, borrower) => Lend(s, run, borrower).0
    case OpReclaim(run, borrower) => Reclaim(s, run, borrower).0
    case OpSplit(run, leftPages) => SplitAllocated(s, run, leftPages).0
    case OpJoin(left, right) => JoinAllocated(s, left, right).0
    case OpRelease(run) => Release(s, run).0
  }

  // ---------------------------------------------------------------------
  // First fit

  lemma {:induction false} FirstFitIsKey(free: map<int, int>, keys: seq<int>, pages: int, alignment: nat)
    requires AllGood(free) && AllIn(free, keys) && alignment > 0
    ensures var r := FirstFit(free, keys, pages, alignment);
      && (r.None? ==> NoneFit(free, keys, |keys|, pages, alignment))
      && (r.Some? ==> && r.value.0 in free
                      && Fit(r.value.0, free[r.value.0], pages, alignment) == Some(r.value.1)
                      && exists i :: 0 <= i < |keys| && keys[i] == r.value.0 && NoneFit(free, keys, i, pages, alignment))
  {
    if keys != [] {
      var rest := keys[1..];
      FirstFitIsKey(free, rest, pages, alignment);
      var r := FirstFit(free, keys, pages, alignment);
      if Fit(keys[0], free[keys[0]], pages, alignment).Some? {
        assert NoneFit(free, keys, 0, pages, alignment);
      } else if r.None? {
        NoneFitShift(free, keys, |rest|, pages, alignment);
      } else {
        var i :| 0 <= i < |rest| && rest[i] == r.value.0 && NoneFit(free, rest, i, pages, alignment);
        assert keys[i + 1] == r.value.0;
        NoneFitShift(free, keys, i, pages, alignment);
      }
    }
  }

  // None of the first `n` blocks fits.
  ghost predicate NoneFit(free: map<int, int>, keys: seq<int>, n: int, pages: int, alignment: nat)
    requires AllGood(free) && AllIn(free, keys) && alignment > 0 && n <= |keys|
  {
    forall i :: 0 <= i < n ==> Fit(keys[i], free[keys[i]], pages, alignment).None?
  }

  lemma NoneFitShift(free: map<int, int>, keys: seq<int>, n: nat, pages: int, alignment: nat)
    requires AllGood(free) && AllIn(free, keys) && alignment > 0 && n < |keys|
    requires Fit(keys[0], free[keys[0]], pages, alignment).None? && NoneFit(free, keys[1..], n, pages, alignment)
    ensures NoneFit(free, keys, n + 1, pages, alignment)
  {
    forall i | 0 <= i < n + 1
      ensures Fit(keys[i], free[keys[i]], pages, alignment).None?
    {
      if i > 0 { assert keys[i] == keys[1..][i - 1]; }
    }
  }

  lemma {:induction false} PowerOfTwoExponent(x: nat) returns (k: nat)
    requires IsPowerOfTwo(x)
    ensures x == Pow2(k)
  {
    if x == 1 {
      k := 0;
    } else {
      var j := PowerOfTwoExponent(x / 2);
      k := j + 1;
    }
  }

  lemma {:induction false} Pow2Sum(a: nat, b: nat)
    ensures Pow2(a + b) == Pow2(a) * Pow2(b)
  {
    if a > 0 {
      Pow2Sum(a - 1, b);
      assert Pow2(a + b) == 2 * (Pow2(a - 1) * Pow2(b)) == (2 * Pow2(a - 1)) * Pow2(b);
    }
  }

  lemma {:induction false} Pow2Monotone(a: nat, b: nat)
    requires a <= b
    ensures Pow2(a) <= Pow2(b)
    decreases b
  {
    if a < b { Pow2Monotone(a, b - 1); }
  }

  // A page alignment is 4096 * 2^k, and divides 2^64.
  lemma AlignmentShape(alignmentPages: nat, alignment: nat) returns (n: nat, m: nat)
    requires IsPowerOfTwo(alignmentPages) && alignment == alignmentPages * PAGE_SIZE && alignment < U64_LIMIT
    ensures alignment == Pow2(n) && n >= 12 && U64_LIMIT == m * alignment && m >= 1
  {
    var k := PowerOfTwoExponent(alignmentPages);
    Pow2Sum(12, k);
    assert Pow2(12) == 4096;
    n := k + 12;
    Pow2_64();
    if n > 64 { Pow2Monotone(64, n); }
    Pow2Sum(64 - n, n);
    m := Pow2(64 - n);
  }

  lemma MulMonotone(x: int, y: int, m: int)
    requires x <= y && m >= 0
    ensures x * m <= y * m
  {
    assert (y - x) * m >= 0;
  }

  lemma FloorIsLeast(u: nat, m: nat, a: nat)
    requires m > 0 && a % m == 0 && u < a + m
    ensures u - u % m <= a
  {
    var q, r := u / m, a / m;
    assert u == q * m + u % m && a == r * m;
    if q <= r {
      MulMonotone(q, r, m);
    } else {
      MulMonotone(r + 1, q, m);
    }
  }

  lemma AlignUpIsLeast(base: nat, alignment: nat, n: nat, a: nat)
    requires alignment == Pow2(n) && base <= a && a % alignment == 0
    ensures Clear(base + (alignment - 1), alignment - 1) <= a
  {
    hide Clear, Pow2;
    ClearLow(base + (alignment - 1), n);
    FloorIsLeast(base + (alignment - 1), alignment, a);
  }

  lemma FloorIsMultiple(u: nat, m: nat)
    requires m > 0
    ensures (u - u % m) % m == 0 && u - m < u - u % m <= u
  {
    var q := u / m;
    assert u - u % m == q * m;
    MultipleOf(q, m);
  }

  lemma AlignUpAligned(base: nat, alignment: nat, n: nat)
    requires alignment == Pow2(n)
    ensures var up := Clear(base + (alignment - 1), alignment - 1);
            base <= up < base + alignment && up % alignment == 0
  {
    hide Clear, Pow2;
    ClearLow(base + (alignment - 1), n);
    FloorIsMultiple(base + (alignment - 1), alignment);
  }

  // When `base + alignment - 1` does not fit 64 bits, no aligned address from `base` on does.
  lemma NoAlignedAbove(base: nat, alignment: nat, m: nat, a: nat)
    requires alignment > 0 && U64_LIMIT == m * alignment
    requires base + (alignment - 1) >= U64_LIMIT && base <= a && a % alignment == 0
    ensures a >= U64_LIMIT
  {
    var r := a / alignment;
    assert a == r * alignment;
    assert r < m ==> (m - r) * alignment >= alignment;
    assert r >= m ==> (r - m) * alignment >= 0;
  }

  lemma DividesThrough(a: nat, x: nat, y: nat)
    requires x > 0 && y > 0 && x * y > 0 && a % (x * y) == 0
    ensures a % y == 0
  {
    var q := a / (x * y);
    assert a == q * (x * y) == (q * x) * y;
    MultipleOf(q * x, y);
  }

  lemma AlignedIsPageAligned(a: nat, n: nat)
    requires n >= 12 && a % Pow2(n) == 0
    ensures a % PAGE_SIZE == 0
  {
    Pow2Sum(n - 12, 12);
    assert Pow2(12) == 4096;
    DividesThrough(a, Pow2(n - 12), 4096);
  }

  // What `allocate` knows of a byte alignment once its arguments are accepted.
  ghost predicate IsAlignment(alignment: nat, n: nat, m: nat) {
    alignment == Pow2(n) && n >= 12 && U64_LIMIT == m * alignment
  }

  // The checked align-up: either it is the least aligned address from `base`
  // on, or no aligned address from `base` on fits 64 bits.
  lemma AlignUp(base: nat, alignment: nat, n: nat, m: nat, a: nat)
    requires IsAlignment(alignment, n, m)
    ensures var up := Clear(base + (alignment - 1), alignment - 1);
      && base <= up < base + alignment && up % alignment == 0 && up % PAGE_SIZE == 0
      && (base <= a && a % alignment == 0 ==> up <= a)
      && (base <= a && a % alignment == 0 && base + (alignment - 1) >= U64_LIMIT ==> a >= U64_LIMIT)
  {
    AlignUpAligned(base, alignment, n);
    AlignedIsPageAligned(Clear(base + (alignment - 1), alignment - 1), n);
    if base <= a && a % alignment == 0 {
      AlignUpIsLeast(base, alignment, n, a);
      if base + (alignment - 1) >= U64_LIMIT { NoAlignedAbove(base, alignment, m, a); }
    }
  }

  // `pages` pages at `a`, aligned and wholly free.
  ghost predicate FreeRun(free: map<int, int>, a: int, pages: int, alignment: int)
    requires alignment > 0
  {
    && 0 <= a && a % alignment == 0
    && forall x :: In(a, pages, x) ==> Covers(free, x)
  }

  ghost predicate LowestFreeRun(free: map<int, int>, a: int, pages: int, alignment: int)
    requires alignment > 0
  {
    && FreeRun(free, a, pages, alignment)
    && forall other :: FreeRun(free, other, pages, alignment) ==> a <= other
  }

  ghost predicate NoFreeRun(free: map<int, int>, pages: int, alignment: int)
    requires alignment > 0
  {
    forall a :: !FreeRun(free, a, pages, alignment)
  }

  // A block that does not fit holds no run; one that fits holds its lowest run there.
  lemma FitDecidesBlock(base: int, available: int, pages: int, alignment: nat, n: nat, m: nat, a: int)
    requires Good(base, available) && pages > 0 && IsAlignment(alignment, n, m)
    ensures var r := Fit(base, available, pages, alignment);
      && (r.None? ==> !(base <= a && a % alignment == 0 && End(a, pages) <= End(base, available)))
      && (r.Some? ==> && base <= r.value && r.value % alignment == 0 && r.value % PAGE_SIZE == 0
                      && End(r.value, pages) <= End(base, available)
                      && (base <= a && a % alignment == 0 ==> r.value <= a))
  {
    AlignUp(base, alignment, n, m, if a < 0 then 0 else a);
    PrefixArithmetic(base, Clear(base + (alignment - 1), alignment - 1), pages, available);
  }

  lemma PrefixArithmetic(base: int, up: int, pages: int, available: int)
    requires base <= up && base % PAGE_SIZE == 0 && up % PAGE_SIZE == 0
    ensures (up - base) / PAGE_SIZE + pages <= available <==> End(up, pages) <= End(base, available)
  {
    assert (up - base) % PAGE_SIZE == 0;
  }

  lemma FirstFitSound(free: map<int, int>, pages: int, alignment: nat, n: nat, m: nat)
    requires Normal(free) && pages > 0 && IsAlignment(alignment, n, m)
    ensures var r := FirstFit(free, Sorted(free.Keys), pages, alignment);
      && (r.Some? ==> LowestFreeRun(free, r.value.1, pages, alignment))
      && (r.None? ==> NoFreeRun(free, pages, alignment))
  {
    var keys := Sorted(free.Keys);
    FirstFitIsKey(free, keys, pages, alignment);
    var r := FirstFit(free, keys, pages, alignment);
    if r.Some? {
      ChosenIsFree(free, r.value.0, r.value.1, pages, alignment, n, m);
    }
    forall a | FreeRun(free, a, pages, alignment)
      ensures r.Some? && r.value.1 <= a
    {
      ChosenIsLowest(free, pages, alignment, n, m, a);
    }
  }

  lemma ChosenIsFree(free: map<int, int>, b: int, up: int, pages: int, alignment: nat, n: nat, m: nat)
    requires AllGood(free) && b in free && pages > 0 && IsAlignment(alignment, n, m)
    requires Fit(b, free[b], pages, alignment) == Some(up)
    ensures FreeRun(free, up, pages, alignment) && up % PAGE_SIZE == 0
    ensures b <= up && End(up, pages) <= End(b, free[b])
  {
    FitDecidesBlock(b, free[b], pages, alignment, n, m, b);
    forall x | In(up, pages, x)
      ensures Covers(free, x)
    {
      assert In(b, free[b], x);
    }
  }

  lemma ChosenIsLowest(free: map<int, int>, pages: int, alignment: nat, n: nat, m: nat, a: int)
    requires Normal(free) && pages > 0 && IsAlignment(alignment, n, m) && FreeRun(free, a, pages, alignment)
    ensures var r := FirstFit(free, Sorted(free.Keys), pages, alignment);
      r.Some? && r.value.1 <= a
  {
    var keys := Sorted(free.Keys);
    FirstFitIsKey(free, keys, pages, alignment);
    var r := FirstFit(free, keys, pages, alignment);
    var c := RunBlock(free, a, pages, alignment);
    var i :| 0 <= i < |keys| && keys[i] == c;
    FitDecidesBlock(c, free[c], pages, alignment, n, m, a);
    if r.Some? && r.value.0 != c {
      var b := r.value.0;
      var j :| 0 <= j < |keys| && keys[j] == b && NoneFit(free, keys, j, pages, alignment);
      FitDecidesBlock(b, free[b], pages, alignment, n, m, b);
      assert j < i;
    }
  }

  // `allocate` returns the lowest-addressed aligned free run, and reports
  // OutOfMemory exactly when there is none.
  lemma AllocateIsComplete(s: State, pages: u64, alignmentPages: u64)
    requires WellFormed(s) && Normal(s.free)
    requires pages > 0 && IsPowerOfTwo(alignmentPages) && alignmentPages * PAGE_SIZE < U64_LIMIT
    ensures var r := Allocate(s, pages, alignmentPages).1;
      && (r.Ok? ==> && LowestFreeRun(s.free, r.value.base, pages, alignmentPages * PAGE_SIZE)
                    && r.value.pages == pages && !r.value.zeroed
                    && r.value.generation == Counter(s, r.value.base))
      && (r.Err? ==> r.error == OutOfMemory && NoFreeRun(s.free, pages, alignmentPages * PAGE_SIZE))
  {
    var alignment := alignmentPages * PAGE_SIZE;
    var n, m := AlignmentShape(alignmentPages, alignment);
    FirstFitSound(s.free, pages, alignment, n, m);
  }

  lemma RunBlock(free: map<int, int>, a: int, pages: int, alignment: int) returns (c: int)
    requires Normal(free) && alignment > 0 && pages > 0 && FreeRun(free, a, pages, alignment)
    ensures c in free && c <= a && End(a, pages) <= End(c, free[c])
  {
    assert forall x :: a <= x < End(a, pages) ==> In(a, pages, x);
    c := IntervalInOneBlock(free, a, End(a, pages));
  }
}

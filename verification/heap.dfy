/** The lock-free page heap: one 64-bit bitmap changed by weak compare-exchange
    and fetch-and, one atomic access per step, by any number of CPUs. */
module LockFreeHeap {
  import opened Wrappers
  import opened Machine
  import opened Bits

  const HEAP_PAGES: int := 64
  const HEAP_BYTES: int := HEAP_PAGES * PAGE_SIZE

  // A run of consecutive heap pages.
  datatype Run = Run(first: int, pages: int)

  predicate InHeap(r: Run) {
    0 <= r.first && 1 <= r.pages && r.first + r.pages <= HEAP_PAGES
  }

  predicate Has(r: Run, page: int) {
    r.first <= page < r.first + r.pages
  }

  // `layout.size().max(1).div_ceil(4096)`
  function PagesFor(size: nat): (n: int)
    ensures n >= 1
    ensures (n - 1) * PAGE_SIZE < (if size == 0 then 1 else size) <= n * PAGE_SIZE
  {
    ((if size == 0 then 1 else size) + PAGE_SIZE - 1) / PAGE_SIZE
  }

  function RunMask(r: Run): nat
    requires InHeap(r)
  {
    if r.pages == 64 then U64_MAX else Shl(Shl(1, r.pages) - 1, r.first)
  }

  lemma RunMaskBit(r: Run, page: nat)
    requires InHeap(r)
    ensures Bit(RunMask(r), page) == Has(r, page)
  {
    if r.pages == 64 { Pow2_64(); }
    assert RunMask(r) == Mask(r.first, r.pages);
    MaskBit(r.first, r.pages, page);
  }

  // Where a CPU is inside `alloc` or `dealloc`.
  datatype Pc =
    | Idle
    | Scan(at: Run)                      // about to load the bitmap
    | Try(at: Run, observed: nat)        // about to test and compare-exchange
    | Zeroing(at: Run, done: int)        // owns the run, has cleared `done` pages of it
    | Freeing(at: Run)                   // about to fetch-and the run away

  datatype State = State(
    base: int,                 // HEAP_BASE
    bitmap: nat,               // HEAP_BITMAP
    allocations: nat,          // HEAP_ALLOCATIONS
    pcs: map<int, Pc>,
    live: map<int, int>,       // returned and not yet freed: first page to page count
    memory: map<int, int>)     // content of the heap pages; absent means zero

  function PcOf(s: State, cpu: int): Pc {
    if cpu in s.pcs then s.pcs[cpu] else Idle
  }

  datatype Action =
    | CallAlloc(cpu: int, size: nat, align: nat)
    | Load(cpu: int)
    | CompareExchange(cpu: int, spurious: bool)
    | ZeroPage(cpu: int)
    | Return(cpu: int)
    | CallDealloc(cpu: int, address: int, size: nat)
    | FetchAnd(cpu: int)
    | Write(owner: int, page: int, value: int)   // the holder of an allocation uses it

  // The run `dealloc` clears for an address and a size; None when it returns early.
  function DeallocTarget(base: int, address: int, size: nat): Option<Run> {
    if base == 0 || address < base || address >= base + HEAP_BYTES || address % PAGE_SIZE != 0 then None
    else
      var r := Run((address - base) / PAGE_SIZE, PagesFor(size));
      if r.pages > HEAP_PAGES || r.first + r.pages > HEAP_PAGES then None else Some(r)
  }

  // The caller's side of `dealloc`: an address that `alloc` returned, with its
  // size, not freed since; or one that `dealloc` ignores.
  predicate MayDealloc(s: State, address: int, size: nat) {
    var target := DeallocTarget(s.base, address, size);
    target.None? || (target.value.first in s.live && s.live[target.value.first] == target.value.pages)
  }

  function NextRun(r: Run): Pc {
    if r.first + 1 <= HEAP_PAGES - r.pages then Scan(Run(r.first + 1, r.pages)) else Idle
  }

  // One step; an action that is not possible in the state changes nothing.
  function Step(s: State, a: Action): State {
    match a
    case CallAlloc(cpu, size, align) =>
      if PcOf(s, cpu) != Idle || s.base == 0 || align > 4096 || PagesFor(size) > HEAP_PAGES then s
      else s.(pcs := s.pcs[cpu := Scan(Run(0, PagesFor(size)))])
    case Load(cpu) =>
      var pc := PcOf(s, cpu);
      if pc.Scan? then s.(pcs := s.pcs[cpu := Try(pc.at, s.bitmap)]) else s
    case CompareExchange(cpu, spurious) =>
      var pc := PcOf(s, cpu);
      if !pc.Try? || !InHeap(pc.at) then s
      else if And(pc.observed, RunMask(pc.at)) != 0 then s.(pcs := s.pcs[cpu := NextRun(pc.at)])
      else if s.bitmap == pc.observed && !spurious then
        s.(bitmap := Or(pc.observed, RunMask(pc.at)), pcs := s.pcs[cpu := Zeroing(pc.at, 0)])
      else s.(pcs := s.pcs[cpu := Try(pc.at, s.bitmap)])
    case ZeroPage(cpu) =>
      var pc := PcOf(s, cpu);
      if pc.Zeroing? && pc.done < pc.at.pages then
        s.(memory := s.memory - {pc.at.first + pc.done}, pcs := s.pcs[cpu := Zeroing(pc.at, pc.done + 1)])
      else s
    case Return(cpu) =>
      var pc := PcOf(s, cpu);
      if pc.Zeroing? && pc.done == pc.at.pages then
        s.(allocations := s.allocations + 1, live := s.live[pc.at.first := pc.at.pages], pcs := s.pcs[cpu := Idle])
      else s
    case CallDealloc(cpu, address, size) =>
      var target := DeallocTarget(s.base, address, size);
      if PcOf(s, cpu) != Idle || target.None? || !MayDealloc(s, address, size) then s
      else s.(live := s.live - {target.value.first}, pcs := s.pcs[cpu := Freeing(target.value)])
    case FetchAnd(cpu) =>
      var pc := PcOf(s, cpu);
      if pc.Freeing? && InHeap(pc.at) then
        s.(bitmap := Clear(s.bitmap, RunMask(pc.at)), pcs := s.pcs[cpu := Idle])
      else s
    case Write(owner, page, value) =>
      if owner in s.live && Has(Run(owner, s.live[owner]), page) then s.(memory := s.memory[page := value]) else s
  }

  // ---------------------------------------------------------------------
  // Ownership

  // Who holds a run: the program, by its first page, or a CPU inside the allocator.
  datatype Owner = Program(first: int) | Cpu(id: int)

  function Held(s: State, o: Owner): Option<Run> {
    match o
    case Program(first) => if first in s.live then Some(Run(first, s.live[first])) else None
    case Cpu(id) =>
      var pc := PcOf(s, id);
      if pc.Zeroing? || pc.Freeing? then Some(pc.at) else None
  }

  predicate Holds(s: State, o: Owner, page: int) {
    Held(s, o).Some? && Has(Held(s, o).value, page)
  }

  predicate GoodPc(s: State, pc: Pc) {
    && (!pc.Idle? ==> InHeap(pc.at))
    && (pc.Zeroing? ==> 0 <= pc.done <= pc.at.pages
                        && forall page :: pc.at.first <= page < pc.at.first + pc.done ==> page !in s.memory)
  }

  ghost predicate Shaped(s: State) {
    && (forall o :: Held(s, o).Some? ==> InHeap(Held(s, o).value))
    && (forall cpu :: GoodPc(s, PcOf(s, cpu)))
    && s.bitmap < U64_LIMIT
  }

  // No page has two holders, and the bitmap is exactly the pages held.
  ghost predicate ExactlyHeld(s: State) {
    && (forall o, o', page :: Holds(s, o, page) && Holds(s, o', page) ==> o == o')
    && (forall page: nat :: Bit(s.bitmap, page) <==> exists o :: Holds(s, o, page))
  }

  ghost predicate Inv(s: State) {
    Shaped(s) && ExactlyHeld(s)
  }

  function Init(base: int): State {
    State(base, 0, 0, map[], map[], map[])
  }

  lemma InitInv(base: int)
    ensures Inv(Init(base))
  {
    forall page: nat
      ensures !Bit(0, page)
    {
      ZeroBit(page);
    }
  }

  lemma ClaimKeeps(s: State, t: State, cpu: int, r: Run)
    requires Inv(s) && InHeap(r) && And(s.bitmap, RunMask(r)) == 0
    requires t.bitmap == Or(s.bitmap, RunMask(r))
    requires Held(s, Cpu(cpu)).None? && Held(t, Cpu(cpu)) == Some(r)
    requires forall o :: o != Cpu(cpu) ==> Held(t, o) == Held(s, o)
    ensures ExactlyHeld(t)
  {
    forall page: nat
      ensures Bit(t.bitmap, page) <==> Bit(s.bitmap, page) || Has(r, page)
      ensures !(Bit(s.bitmap, page) && Has(r, page))
    {
      OrBit(s.bitmap, RunMask(r), page);
      AndBit(s.bitmap, RunMask(r), page);
      RunMaskBit(r, page);
      ZeroBit(page);
    }
    forall o, page
      ensures Holds(t, o, page) <==> if o == Cpu(cpu) then Has(r, page) else Holds(s, o, page)
      ensures Holds(s, o, page) ==> !Has(r, page)
    {
      if Has(r, page) { assert Bit(s.bitmap, page) <==> exists o :: Holds(s, o, page); }
    }
    forall page: nat
      ensures Bit(t.bitmap, page) <==> exists o :: Holds(t, o, page)
    {
      if Has(r, page) { assert Holds(t, Cpu(cpu), page); }
      if o :| Holds(s, o, page) { assert Holds(t, o, page); }
    }
  }

  // A fetch-and takes away the run its CPU holds and nothing else.
  lemma FreeKeeps(s: State, t: State, cpu: int, r: Run)
    requires Inv(s) && InHeap(r) && Held(s, Cpu(cpu)) == Some(r)
    requires t.bitmap == Clear(s.bitmap, RunMask(r))
    requires Held(t, Cpu(cpu)).None?
    requires forall o :: o != Cpu(cpu) ==> Held(t, o) == Held(s, o)
    ensures ExactlyHeld(t)
  {
    forall page: nat
      ensures Bit(t.bitmap, page) <==> Bit(s.bitmap, page) && !Has(r, page)
    {
      ClearBit(s.bitmap, RunMask(r), page);
      RunMaskBit(r, page);
    }
    assert forall o, page :: Holds(t, o, page) <==> o != Cpu(cpu) && Holds(s, o, page);
    forall page: nat
      ensures Bit(t.bitmap, page) <==> exists o :: Holds(t, o, page)
    {
      if Has(r, page) { assert Holds(s, Cpu(cpu), page); }
      if o :| Holds(s, o, page) { assert o != Cpu(cpu) ==> Holds(t, o, page); }
    }
  }

  // A run changes hands between a CPU and the program; the bitmap does not move.
  lemma HandOverKeeps(s: State, t: State, from: Owner, to: Owner)
    requires Inv(s) && t.bitmap == s.bitmap && from != to
    requires Held(s, from).Some? && Held(t, from).None? && Held(t, to) == Held(s, from)
    requires Held(s, to).None?
    requires forall o :: o != from && o != to ==> Held(t, o) == Held(s, o)
    ensures ExactlyHeld(t)
  {
    assert forall page :: Holds(t, to, page) <==> Holds(s, from, page);
    forall o, o', page | Holds(t, o, page) && Holds(t, o', page)
      ensures o == o'
    {
      assert Holds(s, if o == to then from else o, page);
      assert Holds(s, if o' == to then from else o', page);
    }
    forall page: nat
      ensures Bit(t.bitmap, page) <==> exists o :: Holds(t, o, page)
    {
      if o :| Holds(s, o, page) { assert Holds(t, if o == from then to else o, page); }
      if o :| Holds(t, o, page) { assert Holds(s, if o == to then from else o, page); }
    }
  }

  lemma SameHolders(s: State, t: State)
    requires Inv(s) && t.bitmap == s.bitmap && forall o :: Held(t, o) == Held(s, o)
    ensures ExactlyHeld(t)
  {
    assert forall o, page :: Holds(t, o, page) <==> Holds(s, o, page);
    forall page: nat
      ensures Bit(t.bitmap, page) <==> exists o :: Holds(t, o, page)
    {
      if o :| Holds(s, o, page) { assert Holds(t, o, page); }
      if o :| Holds(t, o, page) { assert Holds(s, o, page); }
    }
  }

  lemma BitmapBelow(s: State, r: Run)
    requires s.bitmap < U64_LIMIT && InHeap(r)
    ensures Or(s.bitmap, RunMask(r)) < U64_LIMIT && Clear(s.bitmap, RunMask(r)) < U64_LIMIT
  {
    Pow2_64();
    forall page: nat | 64 <= page
      ensures !Bit(Or(s.bitmap, RunMask(r)), page) && !Bit(Clear(s.bitmap, RunMask(r)), page)
    {
      HighBitClear(s.bitmap, 64, page);
      RunMaskBit(r, page);
      OrBit(s.bitmap, RunMask(r), page);
      ClearBit(s.bitmap, RunMask(r), page);
    }
    BoundedByBits(Or(s.bitmap, RunMask(r)), 64);
    BoundedByBits(Clear(s.bitmap, RunMask(r)), 64);
  }

  // ---------------------------------------------------------------------
  // Every step of every CPU keeps the invariant

  lemma LocalStepKeeps(s: State, a: Action)
    requires Inv(s) && (a.CallAlloc? || a.Load?)
    ensures Inv(Step(s, a))
  {
    var t := Step(s, a);
    assert forall o :: Held(t, o) == Held(s, o);
    assert forall cpu :: GoodPc(s, PcOf(s, cpu)) ==> GoodPc(t, PcOf(t, cpu));
    SameHolders(s, t);
  }

  lemma CompareExchangeKeeps(s: State, cpu: int, spurious: bool)
    requires Inv(s)
    ensures Inv(Step(s, CompareExchange(cpu, spurious)))
  {
    var t, pc := Step(s, CompareExchange(cpu, spurious)), PcOf(s, cpu);
    assert GoodPc(s, pc);
    assert forall c :: c != cpu ==> PcOf(t, c) == PcOf(s, c);
    if pc.Try? && And(pc.observed, RunMask(pc.at)) == 0 && s.bitmap == pc.observed && !spurious {
      BitmapBelow(s, pc.at);
      ClaimKeeps(s, t, cpu, pc.at);
      assert forall c :: GoodPc(s, PcOf(s, c)) ==> GoodPc(t, PcOf(t, c));
    } else {
      assert forall o :: Held(t, o) == Held(s, o);
      SameHolders(s, t);
      assert forall c :: GoodPc(s, PcOf(s, c)) ==> GoodPc(t, PcOf(t, c));
    }
  }

  lemma FetchAndKeeps(s: State, cpu: int)
    requires Inv(s)
    ensures Inv(Step(s, FetchAnd(cpu)))
  {
    var t, pc := Step(s, FetchAnd(cpu)), PcOf(s, cpu);
    assert GoodPc(s, pc);
    if pc.Freeing? {
      BitmapBelow(s, pc.at);
      FreeKeeps(s, t, cpu, pc.at);
      assert forall c :: GoodPc(s, PcOf(s, c)) ==> GoodPc(t, PcOf(t, c));
    }
  }

  lemma ReturnKeeps(s: State, cpu: int)
    requires Inv(s)
    ensures Inv(Step(s, Return(cpu)))
  {
    var t, pc := Step(s, Return(cpu)), PcOf(s, cpu);
    assert GoodPc(s, pc);
    if pc.Zeroing? && pc.done == pc.at.pages {
      var r := pc.at;
      assert Held(s, Cpu(cpu)) == Some(r) && Holds(s, Cpu(cpu), r.first);
      if r.first in s.live { HeldByOne(s, Program(r.first), Cpu(cpu), r.first); }
      HandOverKeeps(s, t, Cpu(cpu), Program(r.first));
      assert forall c :: GoodPc(s, PcOf(s, c)) ==> GoodPc(t, PcOf(t, c));
    }
  }

  lemma HeldByOne(s: State, o: Owner, o': Owner, page: int)
    requires Inv(s) && Held(s, o).Some? && Held(s, o').Some? && o != o'
    requires Held(s, o).value.first == page
    ensures !Holds(s, o', page)
  {
    assert InHeap(Held(s, o).value) && Holds(s, o, page);
  }

  lemma CallDeallocKeeps(s: State, cpu: int, address: int, size: nat)
    requires Inv(s)
    ensures Inv(Step(s, CallDealloc(cpu, address, size)))
  {
    var t := Step(s, CallDealloc(cpu, address, size));
    if t != s {
      var r := DeallocTarget(s.base, address, size).value;
      assert Held(s, Program(r.first)) == Some(r);
      HandOverKeeps(s, t, Program(r.first), Cpu(cpu));
      assert forall c :: GoodPc(s, PcOf(s, c)) ==> GoodPc(t, PcOf(t, c));
    }
  }

  // Writes by a holder never touch a page that is being cleared for another.
  lemma MemoryKeeps(s: State, a: Action)
    requires Inv(s) && (a.ZeroPage? || a.Write?)
    ensures Inv(Step(s, a))
  {
    var t := Step(s, a);
    assert forall o :: Held(t, o) == Held(s, o);
    SameHolders(s, t);
    forall cpu
      ensures GoodPc(t, PcOf(t, cpu))
    {
      var pc := PcOf(s, cpu);
      assert GoodPc(s, pc);
      if a.Write? && pc.Zeroing? && t != s {
        assert Holds(s, Program(a.owner), a.page);
        assert !Holds(s, Cpu(cpu), a.page);
      }
    }
  }

  lemma StepKeeps(s: State, a: Action)
    requires Inv(s)
    ensures Inv(Step(s, a))
  {
    match a {
      case CallAlloc(_, _, _) => LocalStepKeeps(s, a);
      case Load(_) => LocalStepKeeps(s, a);
      case CompareExchange(cpu, spurious) => CompareExchangeKeeps(s, cpu, spurious);
      case ZeroPage(_) => MemoryKeeps(s, a);
      case Return(cpu) => ReturnKeeps(s, cpu);
      case CallDealloc(cpu, address, size) => CallDeallocKeeps(s, cpu, address, size);
      case FetchAnd(cpu) => FetchAndKeeps(s, cpu);
      case Write(_, _, _) => MemoryKeeps(s, a);
    }
  }

  // Any interleaving is a sequence of actions.
  function Exec(s: State, actions: seq<Action>): State {
    if actions == [] then s else Step(Exec(s, actions[..|actions| - 1]), actions[|actions| - 1])
  }

  lemma {:induction false} EveryInterleavingKeeps(base: int, actions: seq<Action>)
    ensures Inv(Exec(Init(base), actions))
  {
    if actions == [] {
      InitInv(base);
    } else {
      EveryInterleavingKeeps(base, actions[..|actions| - 1]);
      StepKeeps(Exec(Init(base), actions[..|actions| - 1]), actions[|actions| - 1]);
    }
  }

  // In every interleaving: two live allocations share no page, each lies inside
  // the 64-page extent, every page of it is marked in the bitmap, and no CPU is
  // claiming or freeing any of its pages.
  lemma LiveAllocationsDisjoint(base: int, actions: seq<Action>, a: int, b: int, page: int)
    requires var s := Exec(Init(base), actions); a in s.live && Has(Run(a, s.live[a]), page)
    ensures var s := Exec(Init(base), actions);
      && InHeap(Run(a, s.live[a])) && 0 <= page < HEAP_PAGES && Bit(s.bitmap, page)
      && (b in s.live && b != a ==> !Has(Run(b, s.live[b]), page))
      && forall cpu :: !Holds(s, Cpu(cpu), page)
  {
    var s := Exec(Init(base), actions);
    EveryInterleavingKeeps(base, actions);
    assert Held(s, Program(a)).Some? && Holds(s, Program(a), page);
    assert b in s.live && Has(Run(b, s.live[b]), page) ==> Holds(s, Program(b), page);
  }

  // ---------------------------------------------------------------------
  // Runs are of the size asked for

  // Just enough 4096-byte pages for a request, which takes a byte at least.
  predicate Sized(size: nat, pages: int) {
    (pages - 1) * 4096 < (if size == 0 then 1 else size) <= pages * 4096
  }

  // The size of the call a CPU is in: the last one it made while idle.
  ghost function AskedBy(base: int, actions: seq<Action>, cpu: int): Option<nat> {
    if actions == [] then None
    else
      var before, a := actions[..|actions| - 1], actions[|actions| - 1];
      if a.CallAlloc? && a.cpu == cpu && PcOf(Exec(Init(base), before), cpu) == Idle then Some(a.size)
      else AskedBy(base, before, cpu)
  }

  // The size of the call that returned the run at this page last.
  ghost function GrantedFor(base: int, actions: seq<Action>, first: int): Option<nat> {
    if actions == [] then None
    else
      var before, a := actions[..|actions| - 1], actions[|actions| - 1];
      var s := Exec(Init(base), before);
      if a.Return? && Step(s, a) != s && PcOf(s, a.cpu).at.first == first then AskedBy(base, before, a.cpu)
      else GrantedFor(base, before, first)
  }

  predicate Claiming(pc: Pc) {
    pc.Scan? || pc.Try? || pc.Zeroing?
  }

  // Every step but a call keeps the length of the run a CPU is after.
  lemma RunLengthKept(s: State, a: Action, cpu: int)
    requires Claiming(PcOf(Step(s, a), cpu))
    ensures
      if a.CallAlloc? && a.cpu == cpu && PcOf(s, cpu) == Idle then
        Sized(a.size, PcOf(Step(s, a), cpu).at.pages)
      else
        Claiming(PcOf(s, cpu)) && PcOf(Step(s, a), cpu).at.pages == PcOf(s, cpu).at.pages
  {
    hide And, Or, Clear, RunMask;
  }

  // A live run was live before, or has just been returned.
  lemma LiveRunKept(s: State, a: Action, first: int)
    requires first in Step(s, a).live
    ensures
      if a.Return? && Step(s, a) != s && PcOf(s, a.cpu).at.first == first then
        Claiming(PcOf(s, a.cpu)) && Step(s, a).live[first] == PcOf(s, a.cpu).at.pages
      else
        first in s.live && Step(s, a).live[first] == s.live[first]
  {
    hide And, Or, Clear, RunMask;
  }

  /** In every interleaving the run a CPU looks for, claims or clears is just long enough
      for the size of its call, and so is every live run for the call that returned it. */
  lemma {:induction false} RunsFitRequests(base: int, actions: seq<Action>)
    ensures var s := Exec(Init(base), actions);
      && (forall cpu :: Claiming(PcOf(s, cpu)) ==>
            && AskedBy(base, actions, cpu).Some?
            && Sized(AskedBy(base, actions, cpu).value, PcOf(s, cpu).at.pages))
      && (forall first :: first in s.live ==>
            && GrantedFor(base, actions, first).Some?
            && Sized(GrantedFor(base, actions, first).value, s.live[first]))
  {
    hide Sized, Step;
    if actions != [] {
      var before, a := actions[..|actions| - 1], actions[|actions| - 1];
      RunsFitRequests(base, before);
      var s := Exec(Init(base), before);
      var t := Step(s, a);
      assert Exec(Init(base), actions) == t;
      forall cpu | Claiming(PcOf(t, cpu))
        ensures AskedBy(base, actions, cpu).Some? && Sized(AskedBy(base, actions, cpu).value, PcOf(t, cpu).at.pages)
      {
        RunLengthKept(s, a, cpu);
      }
      forall first | first in t.live
        ensures GrantedFor(base, actions, first).Some? && Sized(GrantedFor(base, actions, first).value, t.live[first])
      {
        LiveRunKept(s, a, first);
      }
    }
  }

  // What `alloc` returns is a new run of zero pages.
  lemma ReturnedRunIsZero(s: State, cpu: int)
    requires Inv(s) && Step(s, Return(cpu)) != s
    ensures var r := PcOf(s, cpu).at; var t := Step(s, Return(cpu));
      && t.live == s.live[r.first := r.pages] && r.first !in s.live
      && t.allocations == s.allocations + 1
      && forall page :: Has(r, page) ==> page !in t.memory
  {
    var pc := PcOf(s, cpu);
    assert GoodPc(s, pc);
    assert Holds(s, Cpu(cpu), pc.at.first);
    if pc.at.first in s.live { HeldByOne(s, Program(pc.at.first), Cpu(cpu), pc.at.first); }
  }

  // `dealloc` finds the run of the address `alloc` returned, and only that one.
  lemma DeallocFindsRun(base: int, address: int, size: nat, r: Run)
    requires base % PAGE_SIZE == 0
    ensures DeallocTarget(base, address, size) == Some(r) <==>
      base != 0 && address == base + r.first * 4096 && InHeap(r) && Sized(size, r.pages)
  {
    if Sized(size, r.pages) { SizedIs(size, r.pages, PagesFor(size)); }
  }

  lemma SizedIs(size: nat, m: int, n: int)
    requires Sized(size, m) && Sized(size, n)
    ensures m == n
  {
    assert m < n ==> m * 4096 <= (n - 1) * 4096;
    assert n < m ==> n * 4096 <= (m - 1) * 4096;
  }

  // When nothing is live and no CPU is inside the allocator, the bitmap is zero.
  lemma QuiescentHeapIsEmpty(s: State)
    requires Inv(s) && s.live == map[] && forall cpu :: PcOf(s, cpu) == Idle
    ensures s.bitmap == 0
  {
    forall page: nat
      ensures Bit(s.bitmap, page) == Bit(0, page)
    {
      ZeroBit(page);
      assert forall o :: !Holds(s, o, page);
    }
    SameBits(s.bitmap, 0);
  }

  // ---------------------------------------------------------------------
  // Run alone

  predicate Fits(bitmap: nat, r: Run) {
    InHeap(r) && And(bitmap, RunMask(r)) == 0
  }

  lemma FitsIsClear(bitmap: nat, r: Run)
    requires InHeap(r)
    ensures Fits(bitmap, r) <==> forall page: nat :: Has(r, page) ==> !Bit(bitmap, page)
  {
    forall page: nat
      ensures Bit(And(bitmap, RunMask(r)), page) == (Bit(bitmap, page) && Has(r, page))
    {
      AndBit(bitmap, RunMask(r), page);
      RunMaskBit(r, page);
      ZeroBit(page);
    }
    if And(bitmap, RunMask(r)) != 0 {
      var page := NonzeroHasBit(And(bitmap, RunMask(r)));
    } else {
      forall page: nat | Has(r, page)
        ensures !Bit(bitmap, page)
      {
        ZeroBit(page);
      }
    }
  }

  ghost predicate LowestFit(bitmap: nat, r: Run) {
    Fits(bitmap, r) && forall other: Run :: other.pages == r.pages && Fits(bitmap, other) ==> r.first <= other.first
  }

  // No run of that many pages starting below `limit` fits.
  ghost predicate NoFitBelow(bitmap: nat, pages: int, limit: int) {
    forall r: Run :: r.pages == pages && r.first < limit ==> !Fits(bitmap, r)
  }

  // ---------------------------------------------------------------------
  // One CPU stepping alone, from any state of the others

  // The access a CPU makes next.
  function Next(s: State, cpu: int, spurious: bool): Action {
    match PcOf(s, cpu)
    case Idle => Load(cpu)
    case Scan(_) => Load(cpu)
    case Try(_, _) => CompareExchange(cpu, spurious)
    case Zeroing(at, done) => if done < at.pages then ZeroPage(cpu) else Return(cpu)
    case Freeing(_) => FetchAnd(cpu)
  }

  function Alone(s: State, cpu: int, failures: seq<bool>): State {
    if failures == [] then s
    else
      var t := Alone(s, cpu, failures[..|failures| - 1]);
      Step(t, Next(t, cpu, failures[|failures| - 1]))
  }

  // No run of that many pages fits from `from` up to `limit`.
  ghost predicate NoFitFrom(bitmap: nat, pages: int, from: int, limit: int) {
    forall r: Run :: r.pages == pages && from <= r.first < limit ==> !Fits(bitmap, r)
  }

  // The first run that fits from `from` on.
  ghost predicate LowestFrom(bitmap: nat, from: int, r: Run) {
    from <= r.first && Fits(bitmap, r) && NoFitFrom(bitmap, r.pages, from, r.first)
  }

  // The first page a search still considers: one past a run that was seen taken.
  function Position(pc: Pc): int
    requires (pc.Scan? || pc.Try?) && InHeap(pc.at)
  {
    if pc.Try? && And(pc.observed, RunMask(pc.at)) != 0 then pc.at.first + 1 else pc.at.first
  }

  predicate Untouched(s: State, t: State) {
    t.bitmap == s.bitmap && t.live == s.live && t.allocations == s.allocations
  }

  ghost predicate Claimed(s: State, t: State, from: int, r: Run) {
    LowestFrom(s.bitmap, from, r) && t.bitmap == Or(s.bitmap, RunMask(r))
  }

  // Where a search for `pages` pages from `from` on, begun in s, has come to.
  ghost predicate Searched(s: State, t: State, cpu: int, from: int, pages: int) {
    match PcOf(t, cpu)
    case Scan(r) =>
      && r.pages == pages && InHeap(r) && from <= r.first && Untouched(s, t)
      && NoFitFrom(s.bitmap, pages, from, r.first)
    case Try(r, _) =>
      && r.pages == pages && InHeap(r) && from <= Position(PcOf(t, cpu)) && Untouched(s, t)
      && NoFitFrom(s.bitmap, pages, from, Position(PcOf(t, cpu)))
    case Zeroing(r, done) =>
      && r.pages == pages && 0 <= done <= pages && Claimed(s, t, from, r)
      && t.live == s.live && t.allocations == s.allocations
    case Idle => Ended(s, t, from, pages)
    case Freeing(_) => false
  }

  // The search is over: the lowest run that fits is live, or none fits.
  ghost predicate Ended(s: State, t: State, from: int, pages: int) {
    || (Untouched(s, t) && NoFitFrom(s.bitmap, pages, from, HEAP_PAGES))
    || (exists r: Run :: && r.pages == pages && Claimed(s, t, from, r)
                    && t.live == s.live[r.first := pages] && t.allocations == s.allocations + 1)
  }

  lemma OneMore(bitmap: nat, pages: int, from: int, r: Run)
    requires r.pages == pages && NoFitFrom(bitmap, pages, from, r.first) && !Fits(bitmap, r)
    ensures NoFitFrom(bitmap, pages, from, r.first + 1)
  {
    forall other: Run | other.pages == pages && from <= other.first < r.first + 1
      ensures !Fits(bitmap, other)
    {
      assert other.first == r.first ==> other == r;
    }
  }

  // Past the last run of this length nothing fits.
  lemma NoneLeft(bitmap: nat, pages: int, from: int, limit: int)
    requires NoFitFrom(bitmap, pages, from, limit) && limit > HEAP_PAGES - pages
    ensures NoFitFrom(bitmap, pages, from, HEAP_PAGES)
  {
    hide And, RunMask;
  }

  lemma SearchStep(s: State, t: State, cpu: int, spurious: bool, from: int, pages: int)
    requires Searched(s, t, cpu, from, pages)
    ensures Searched(s, Step(t, Next(t, cpu, spurious)), cpu, from, pages)
  {
    var pc := PcOf(t, cpu);
    match pc {
      case Scan(r) =>
        hide And, RunMask, NoFitFrom;
        if !Fits(s.bitmap, r) { OneMore(s.bitmap, pages, from, r); }
      case Try(r, _) => TryStep(s, t, cpu, spurious, from, pages);
      case Zeroing(r, done) =>
        hide Claimed;
        assert done == pages ==> Claimed(s, Step(t, Return(cpu)), from, r);
      case Idle =>
    }
  }

  lemma TryStep(s: State, t: State, cpu: int, spurious: bool, from: int, pages: int)
    requires Searched(s, t, cpu, from, pages) && PcOf(t, cpu).Try?
    ensures Searched(s, Step(t, CompareExchange(cpu, spurious)), cpu, from, pages)
  {
    hide And, Or, RunMask, NoFitFrom;
    var pc := PcOf(t, cpu);
    if Position(pc) == pc.at.first + 1 {
      if pc.at.first + 1 > HEAP_PAGES - pages { NoneLeft(s.bitmap, pages, from, pc.at.first + 1); }
    } else if !Fits(s.bitmap, pc.at) {
      OneMore(s.bitmap, pages, from, pc.at);
    }
  }

  lemma {:induction false} SearchKeeps(s: State, cpu: int, failures: seq<bool>, from: int, pages: int)
    requires Searched(s, s, cpu, from, pages)
    ensures Searched(s, Alone(s, cpu, failures), cpu, from, pages)
  {
    hide Searched, Step;
    if failures != [] {
      var n := |failures| - 1;
      SearchKeeps(s, cpu, failures[..n], from, pages);
      SearchStep(s, Alone(s, cpu, failures[..n]), cpu, failures[n], from, pages);
    }
  }

  // How many accesses that do not fail spuriously are left.
  function Left(s: State, cpu: int): int {
    match PcOf(s, cpu)
    case Idle => 0
    case Scan(r) => 4 * (HEAP_PAGES - r.first) + 70
    case Try(r, observed) => 4 * (HEAP_PAGES - r.first) + if observed == s.bitmap then 68 else 69
    case Zeroing(r, done) => 1 + r.pages - done
    case Freeing(_) => 1
  }

  lemma LeftStep(s: State, t: State, cpu: int, from: int, pages: int)
    requires Searched(s, t, cpu, from, pages) && pages <= HEAP_PAGES
    ensures 0 <= Left(t, cpu)
    ensures PcOf(t, cpu) != Idle ==> Left(Step(t, Next(t, cpu, false)), cpu) < Left(t, cpu)
    ensures PcOf(t, cpu) == Idle ==> Step(t, Next(t, cpu, false)) == t
  {
    hide And, Or, RunMask, NoFitFrom, Claimed, Ended;
  }

  lemma {:induction false} SearchEnds(s: State, cpu: int, failures: seq<bool>, from: int, pages: int)
    requires Searched(s, s, cpu, from, pages) && pages <= HEAP_PAGES
    requires forall i :: 0 <= i < |failures| ==> !failures[i]
    ensures var t := Alone(s, cpu, failures);
      PcOf(t, cpu) == Idle || Left(t, cpu) <= Left(s, cpu) - |failures|
  {
    hide Searched, Step, Left;
    if failures != [] {
      var n := |failures| - 1;
      SearchEnds(s, cpu, failures[..n], from, pages);
      SearchKeeps(s, cpu, failures[..n], from, pages);
      LeftStep(s, Alone(s, cpu, failures[..n]), cpu, from, pages);
      assert !failures[n];
    }
  }

  /** From any reachable state, wherever the others stand, a CPU inside `alloc` that steps
      alone claims nothing but the lowest run of its length that fits from its position on,
      and gives up only when none does; it is done once enough of its accesses have not
      failed spuriously. */
  lemma AllocAlone(s: State, cpu: int, failures: seq<bool>)
    requires Inv(s) && (PcOf(s, cpu).Scan? || PcOf(s, cpu).Try?)
    ensures InHeap(PcOf(s, cpu).at)
    ensures var pc, t := PcOf(s, cpu), Alone(s, cpu, failures);
      && Searched(s, t, cpu, Position(pc), pc.at.pages)
      && (|failures| >= 400 && (forall i :: 0 <= i < |failures| ==> !failures[i]) ==>
            PcOf(t, cpu) == Idle && Ended(s, t, Position(pc), pc.at.pages))
  {
    hide And, Or, RunMask, Alone;
    var pc := PcOf(s, cpu);
    assert GoodPc(s, pc);
    var from, pages := Position(pc), pc.at.pages;
    assert NoFitFrom(s.bitmap, pages, from, from);
    assert Searched(s, s, cpu, from, pages);
    SearchKeeps(s, cpu, failures, from, pages);
    if |failures| >= 400 && forall i :: 0 <= i < |failures| ==> !failures[i] {
      SearchEnds(s, cpu, failures, from, pages);
      LeftStep(s, Alone(s, cpu, failures), cpu, from, pages);
    }
  }

  /** A whole call: the request is refused outright exactly when there is no heap, the
      alignment is above a page or the size above the heap; otherwise, stepping alone, it ends
      with the lowest run of just enough pages live, or with no such run free. */
  lemma CallAlone(s: State, cpu: int, size: nat, align: nat, failures: seq<bool>)
    requires Inv(s) && PcOf(s, cpu) == Idle
    requires |failures| >= 400 && forall i :: 0 <= i < |failures| ==> !failures[i]
    ensures var called := Step(s, CallAlloc(cpu, size, align));
      if s.base == 0 || align > 4096 || size > 64 * 4096 then called == s
      else
        var t := Alone(called, cpu, failures);
        && PcOf(t, cpu) == Idle
        && (|| (Untouched(s, t) && forall r: Run :: Sized(size, r.pages) ==> !Fits(s.bitmap, r))
            || (exists r: Run ::
                  && Sized(size, r.pages) && LowestFit(s.bitmap, r) && t.bitmap == Or(s.bitmap, RunMask(r))
                  && t.live == s.live[r.first := r.pages] && t.allocations == s.allocations + 1))
  {
    hide And, Or, RunMask, Alone, Inv;
    var called := Step(s, CallAlloc(cpu, size, align));
    if !(s.base == 0 || align > 4096 || size > 64 * 4096) {
      LocalStepKeeps(s, CallAlloc(cpu, size, align));
      AllocAlone(called, cpu, failures);
      var pages := PagesFor(size);
      assert PcOf(called, cpu) == Scan(Run(0, pages)) && Untouched(s, called);
      var t := Alone(called, cpu, failures);
      LowestOfSize(s, called, t, size, pages);
    }
  }

  lemma LowestOfSize(s: State, called: State, t: State, size: nat, pages: int)
    requires Sized(size, pages) && Untouched(s, called) && Ended(called, t, 0, pages)
    ensures (Untouched(s, t) && forall r: Run :: Sized(size, r.pages) ==> !Fits(s.bitmap, r))
      || (exists r: Run ::
            && Sized(size, r.pages) && LowestFit(s.bitmap, r) && t.bitmap == Or(s.bitmap, RunMask(r))
            && t.live == s.live[r.first := r.pages] && t.allocations == s.allocations + 1)
  {
    hide And, Or, RunMask;
    if r: Run :| && r.pages == pages && Claimed(called, t, 0, r)
                 && t.live == called.live[r.first := pages] && t.allocations == called.allocations + 1 {
      forall other: Run | other.pages == r.pages && Fits(s.bitmap, other)
        ensures r.first <= other.first
      {
      }
      assert LowestFit(s.bitmap, r);
    } else {
      forall r: Run | Sized(size, r.pages)
        ensures !Fits(s.bitmap, r)
      {
        SizedIs(size, pages, r.pages);
      }
    }
  }

  class Heap {
    var base: int
    var bitmap: nat
    var allocations: nat

    // `alloc` with no other CPU at work; `spurious` is how often the weak
    // compare-exchange will still fail. It takes the lowest run that fits, and
    // returns null exactly when the request is refused or no run fits.
    method Alloc(size: nat, align: nat, spurious: nat) returns (address: Option<int>)
      modifies this
      ensures base == old(base)
      ensures address.Some? ==> base != 0 && align <= 4096
      ensures address.Some? ==>
        exists r: Run :: && r.pages == PagesFor(size) && LowestFit(old(bitmap), r)
                    && address.value == base + r.first * PAGE_SIZE
                    && bitmap == Or(old(bitmap), RunMask(r)) && allocations == old(allocations) + 1
      ensures address.None? ==>
        && bitmap == old(bitmap) && allocations == old(allocations)
        && (base == 0 || align > 4096 || NoFitBelow(bitmap, PagesFor(size), HEAP_PAGES))
    {
      if base == 0 || align > 4096 { return None; }
      var pages := PagesFor(size);
      if pages > HEAP_PAGES { return None; }
      var failures := spurious;
      var first := 0;
      while first <= HEAP_PAGES - pages
        invariant 0 <= first <= HEAP_PAGES - pages + 1
        invariant bitmap == old(bitmap) && allocations == old(allocations) && base == old(base)
        invariant NoFitBelow(bitmap, pages, first)
      {
        var r := Run(first, pages);
        var mask := RunMask(r);
        var observed := bitmap;
        while And(observed, mask) == 0
          invariant observed == bitmap == old(bitmap) && allocations == old(allocations) && base == old(base)
          decreases failures
        {
          if failures == 0 {
            assert LowestFit(old(bitmap), r);
            bitmap := Or(observed, mask);
            allocations := allocations + 1;
            return Some(base + first * PAGE_SIZE);
          }
          failures := failures - 1;
          observed := bitmap;
        }
        forall other: Run | other.pages == pages && other.first < first + 1
          ensures !Fits(bitmap, other)
        {
          assert other.first == first ==> other == r;
        }
        first := first + 1;
      }
      address := None;
    }

    // `dealloc` with no other CPU at work.
    method Dealloc(address: int, size: nat)
      modifies this`bitmap
      ensures var target := DeallocTarget(base, address, size);
        bitmap == if target.None? then old(bitmap) else Clear(old(bitmap), RunMask(target.value))
    {
      if base == 0 || address < base || address >= base + HEAP_BYTES || address % PAGE_SIZE != 0 { return; }
      var pages := PagesFor(size);
      var first := (address - base) / PAGE_SIZE;
      if pages > HEAP_PAGES || first + pages > HEAP_PAGES { return; }
      bitmap := Clear(bitmap, RunMask(Run(first, pages)));
    }
  }

  // Freeing the run just claimed restores the bitmap.
  lemma ClaimThenFree(bitmap: nat, r: Run)
    requires Fits(bitmap, r)
    ensures Clear(Or(bitmap, RunMask(r)), RunMask(r)) == bitmap
  {
    forall page: nat
      ensures Bit(Clear(Or(bitmap, RunMask(r)), RunMask(r)), page) == Bit(bitmap, page)
    {
      ClearBit(Or(bitmap, RunMask(r)), RunMask(r), page);
      OrBit(bitmap, RunMask(r), page);
      AndBit(bitmap, RunMask(r), page);
      ZeroBit(page);
    }
    SameBits(Clear(Or(bitmap, RunMask(r)), RunMask(r)), bitmap);
  }
}

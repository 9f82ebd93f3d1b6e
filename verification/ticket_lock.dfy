/** The sequential ticket lock, and the atomic-step locks of the runtime that
    refine it. */
module TicketLocks {
  import opened Wrappers
  import opened Machine

  // ---------------------------------------------------------------------
  // The sequential lock

  datatype SyncError = TicketOverflow | UnknownTicket | OutOfOrderRelease

  datatype Lock = Lock(next: int, owner: int, outstanding: set<int>)

  const Unlocked := Lock(0, 0, {})

  function Enqueue(l: Lock): (Lock, Result<int, SyncError>) {
    if l.next + 1 >= U64_LIMIT then (l, Err(TicketOverflow))
    else (l.(next := l.next + 1, outstanding := l.outstanding + {l.next}), Ok(l.next))
  }

  function Acquire(l: Lock, ticket: int): Result<int, SyncError> {
    if ticket !in l.outstanding then Err(UnknownTicket)
    else if ticket != l.owner then Err(OutOfOrderRelease)
    else Ok(ticket)
  }

  function Release(l: Lock, ticket: int): (Lock, Result<(), SyncError>) {
    if ticket != l.owner || ticket !in l.outstanding then (l, Err(OutOfOrderRelease))
    else if l.owner + 1 >= U64_LIMIT then (l.(outstanding := l.outstanding - {ticket}), Err(TicketOverflow))
    else (l.(outstanding := l.outstanding - {ticket}, owner := l.owner + 1), Ok(()))
  }

  function Range(a: int, b: int): (r: set<int>)
    ensures forall t :: t in r <==> a <= t < b
    decreases b - a
  {
    if a >= b then {} else Range(a, b - 1) + {b - 1}
  }

  // The tickets out are exactly those between owner and next.
  predicate LockInv(l: Lock) {
    0 <= l.owner <= l.next < U64_LIMIT && l.outstanding == Range(l.owner, l.next)
  }

  datatype LockOp = TakeTicket | TryAcquire(ticket: int) | GiveBack(ticket: int)

  function LockStep(l: Lock, op: LockOp): Lock {
    match op
    case TakeTicket => Enqueue(l).0
    case TryAcquire(_) => l
    case GiveBack(t) => Release(l, t).0
  }

  ghost function LockRun(l: Lock, ops: seq<LockOp>): Lock
    decreases |ops|
  {
    if ops == [] then l else LockRun(LockStep(l, ops[0]), ops[1..])
  }

  lemma {:induction false} LockRunInv(l: Lock, ops: seq<LockOp>)
    requires LockInv(l)
    ensures LockInv(LockRun(l, ops)) && LockRun(l, ops).owner >= l.owner
    decreases |ops|
  {
    if ops != [] {
      var l' := LockStep(l, ops[0]);
      assert LockInv(l') && l'.owner >= l.owner by {
        assert Range(l.owner, l.next + 1) == Range(l.owner, l.next) + {l.next};
        assert Range(l.owner, l.next) - {l.owner} == Range(l.owner + 1, l.next);
      }
      LockRunInv(l', ops[1..]);
    }
  }

  /** In every reachable state exactly the owner's ticket acquires and releases, and
      only when it is out; the overflow branch of a release is never taken. */
  lemma OnlyOwnerPasses(ops: seq<LockOp>, ticket: int)
    ensures var l := LockRun(Unlocked, ops);
      && (Acquire(l, ticket).Ok? <==> ticket == l.owner < l.next)
      && (Release(l, ticket).1.Ok? <==> ticket == l.owner < l.next)
      && Release(l, ticket).1 != Err(TicketOverflow)
  {
    LockRunInv(Unlocked, ops);
  }

  /** A released ticket is refused for ever. */
  lemma ReleasedForEver(before: seq<LockOp>, ticket: int, after: seq<LockOp>)
    requires var l := LockRun(Unlocked, before); Release(l, ticket).1.Ok?
    ensures var l := LockRun(Unlocked, before); var later := LockRun(Release(l, ticket).0, after);
      Acquire(later, ticket).Err? && Release(later, ticket).1.Err?
  {
    LockRunInv(Unlocked, before);
    var l := LockRun(Unlocked, before);
    LockRunInv(l, [GiveBack(ticket)]);
    assert LockRun(l, [GiveBack(ticket)]) == LockRun(Release(l, ticket).0, [GiveBack(ticket)][1..]);
    LockRunInv(Release(l, ticket).0, after);
  }

  class TicketLock {
    var next: int
    var owner: int
    var outstanding: set<int>

    ghost function View(): Lock
      reads this
    {
      Lock(next, owner, outstanding)
    }

    ghost predicate Valid()
      reads this
    {
      LockInv(View())
    }

    constructor ()
      ensures Valid() && View() == Unlocked
    {
      next, owner, outstanding := 0, 0, {};
    }

    method TakeTicket() returns (r: Result<int, SyncError>)
      requires Valid()
      modifies this
      ensures Valid() && (View(), r) == Enqueue(old(View()))
    {
      var ticket := next;
      if next + 1 >= U64_LIMIT { return Err(TicketOverflow); }
      assert Range(owner, next + 1) == Range(owner, next) + {next};
      next := next + 1;
      outstanding := outstanding + {ticket};
      r := Ok(ticket);
    }

    method TryAcquire(ticket: int) returns (r: Result<int, SyncError>)
      requires Valid()
      ensures r == Acquire(View(), ticket)
      ensures r.Ok? <==> ticket == owner < next
    {
      if ticket !in outstanding { return Err(UnknownTicket); }
      if ticket != owner { return Err(OutOfOrderRelease); }
      r := Ok(ticket);
    }

    method GiveBack(ticket: int) returns (r: Result<(), SyncError>)
      requires Valid()
      modifies this
      ensures Valid() && (View(), r) == Release(old(View()), ticket)
      ensures r != Err(TicketOverflow)
    {
      if ticket != owner || ticket !in outstanding { return Err(OutOfOrderRelease); }
      assert Range(owner, next) - {owner} == Range(owner + 1, next);
      outstanding := outstanding - {ticket};
      owner := owner + 1;
      r := Ok(());
    }
  }

  // ---------------------------------------------------------------------
  // The runtime lock: each CPU passes once, one atomic access at a time

  datatype Pc =
    | Start                     // fetch_add on the next ticket
    | Spin(ticket: int)         // load of the owner
    | Enter(ticket: int)        // inside: fetch_add on the entry counter
    | Leave(ticket: int)        // inside: store of the next owner
    | Once                      // compare-exchange on the first-comer
    | Done

  // `log` is history: the tickets in order of entry.
  datatype State = State(next: int, owner: int, entries: int, once: int, pcs: map<nat, Pc>, log: seq<int>)

  function Init(cpus: set<nat>): State {
    State(0, 0, 0, 0, map c | c in cpus :: Start, [])
  }

  function Step(s: State, cpu: nat): State {
    if cpu !in s.pcs then s
    else match s.pcs[cpu]
      case Start => s.(next := s.next + 1, pcs := s.pcs[cpu := Spin(s.next)])
      case Spin(t) => if s.owner == t then s.(pcs := s.pcs[cpu := Enter(t)]) else s
      case Enter(t) => s.(entries := s.entries + 1, log := s.log + [t], pcs := s.pcs[cpu := Leave(t)])
      case Leave(t) => s.(owner := t + 1, pcs := s.pcs[cpu := Once])
      case Once => s.(once := if s.once == 0 then cpu + 1 else s.once, pcs := s.pcs[cpu := Done])
      case Done => s
  }

  ghost function Run(s: State, schedule: seq<nat>): State
    decreases |schedule|
  {
    if schedule == [] then s else Run(Step(s, schedule[0]), schedule[1..])
  }

  predicate HasTicket(pc: Pc) {
    pc.Spin? || pc.Enter? || pc.Leave?
  }

  predicate SameTicket(p: Pc, q: Pc) {
    HasTicket(p) && HasTicket(q) && p.ticket == q.ticket
  }

  predicate Inside(pc: Pc) {
    pc.Enter? || pc.Leave?
  }

  // CPUs that have drawn a ticket, and CPUs that have passed the lock.
  ghost function Drawn(s: State): set<nat> {
    set c | c in s.pcs && s.pcs[c] != Start
  }

  ghost function Passed(s: State): set<nat> {
    set c | c in s.pcs && (s.pcs[c] == Once || s.pcs[c] == Done)
  }

  ghost predicate Holds(s: State, t: int) {
    exists c :: c in s.pcs && HasTicket(s.pcs[c]) && s.pcs[c].ticket == t
  }

  ghost predicate TicketsInv(s: State) {
    && 0 <= s.owner <= s.next
    && (forall t :: s.owner <= t < s.next <==> Holds(s, t))
    && (forall c, d :: c in s.pcs && d in s.pcs && SameTicket(s.pcs[c], s.pcs[d]) ==> c == d)
    && (forall c :: c in s.pcs && Inside(s.pcs[c]) ==> s.pcs[c].ticket == s.owner)
  }

  // Entries are counted in ticket order, the one in progress included.
  ghost predicate EntriesInv(s: State) {
    && s.entries == |s.log| && (forall i :: 0 <= i < |s.log| ==> s.log[i] == i)
    && s.owner <= s.entries <= s.owner + 1
    && (s.entries == s.owner + 1 <==> exists c :: c in s.pcs && s.pcs[c].Leave?)
  }

  ghost predicate CountsInv(s: State) {
    s.next == |Drawn(s)| && s.owner == |Passed(s)|
  }

  ghost predicate OnceInv(s: State) {
    && (s.once != 0 ==> s.once - 1 in s.pcs && s.pcs[s.once - 1] == Done)
    && (forall c :: c in s.pcs && s.pcs[c] == Done ==> s.once != 0)
  }

  ghost predicate Inv(s: State) {
    TicketsInv(s) && EntriesInv(s) && CountsInv(s) && OnceInv(s)
  }

  lemma InitInv(cpus: set<nat>)
    ensures Inv(Init(cpus))
  {
    var s := Init(cpus);
    assert forall c :: c in s.pcs ==> s.pcs[c] == Start;
    assert Drawn(s) == {} && Passed(s) == {};
  }

  // Who holds which ticket after one CPU moves.
  lemma HoldersMove(s: State, s': State, cpu: nat, t: int)
    requires cpu in s.pcs && cpu in s'.pcs && s'.pcs == s.pcs[cpu := s'.pcs[cpu]]
    requires forall c :: c in s.pcs && c != cpu && HasTicket(s.pcs[c]) && HasTicket(s.pcs[cpu]) ==>
      s.pcs[c].ticket != s.pcs[cpu].ticket
    ensures Holds(s', t) <==>
      (Holds(s, t) && !(HasTicket(s.pcs[cpu]) && s.pcs[cpu].ticket == t)) || (HasTicket(s'.pcs[cpu]) && s'.pcs[cpu].ticket == t)
  {
    if Holds(s, t) {
      var c :| c in s.pcs && HasTicket(s.pcs[c]) && s.pcs[c].ticket == t;
      if c != cpu { assert HasTicket(s'.pcs[c]) && s'.pcs[c].ticket == t; }
    }
    if Holds(s', t) {
      var c :| c in s'.pcs && HasTicket(s'.pcs[c]) && s'.pcs[c].ticket == t;
      if c != cpu { assert HasTicket(s.pcs[c]) && s.pcs[c].ticket == t; }
    }
  }

  lemma TicketsStep(s: State, cpu: nat)
    requires TicketsInv(s)
    ensures TicketsInv(Step(s, cpu))
  {
    var s' := Step(s, cpu);
    if cpu in s.pcs {
      forall c | c in s.pcs && c != cpu && HasTicket(s.pcs[c]) && HasTicket(s.pcs[cpu])
        ensures s.pcs[c].ticket != s.pcs[cpu].ticket
      {
        assert SameTicket(s.pcs[c], s.pcs[cpu]) ==> c == cpu;
      }
      assert forall c :: c in s.pcs && HasTicket(s.pcs[c]) ==> Holds(s, s.pcs[c].ticket);
      forall t
        ensures s'.owner <= t < s'.next <==> Holds(s', t)
      {
        assert s.owner <= t < s.next <==> Holds(s, t);
        HoldersMove(s, s', cpu, t);
      }
    }
  }

  // Two CPUs inside are one.
  lemma InsideAlone(s: State, c: nat, d: nat)
    requires TicketsInv(s) && c in s.pcs && d in s.pcs && Inside(s.pcs[c]) && Inside(s.pcs[d])
    ensures c == d
  {
    assert SameTicket(s.pcs[c], s.pcs[d]);
  }

  lemma EntriesStep(s: State, cpu: nat)
    requires TicketsInv(s) && EntriesInv(s)
    ensures EntriesInv(Step(s, cpu))
  {
    var s' := Step(s, cpu);
    if cpu in s.pcs {
      if exists c :: c in s.pcs && s.pcs[c].Leave? {
        var c :| c in s.pcs && s.pcs[c].Leave?;
        if Inside(s.pcs[cpu]) { InsideAlone(s, c, cpu); }
        if c != cpu { assert c in s'.pcs && s'.pcs[c].Leave?; }
      }
      if s.pcs[cpu].Enter? { assert s'.pcs[cpu].Leave?; }
      if s.pcs[cpu].Leave? {
        forall d | d in s'.pcs
          ensures !s'.pcs[d].Leave?
        {
          if s'.pcs[d].Leave? { InsideAlone(s, d, cpu); }
        }
      }
    }
  }

  lemma SetsMove(s: State, s': State, cpu: nat)
    requires cpu in s.pcs && cpu in s'.pcs && s'.pcs == s.pcs[cpu := s'.pcs[cpu]] && s'.pcs[cpu] != Start
    requires s.pcs[cpu] in {Once, Done} ==> s'.pcs[cpu] in {Once, Done}
    ensures Drawn(s') == Drawn(s) + {cpu}
    ensures Passed(s') == if s'.pcs[cpu] in {Once, Done} then Passed(s) + {cpu} else Passed(s)
  {
  }

  lemma CountsStep(s: State, cpu: nat)
    requires TicketsInv(s) && CountsInv(s)
    ensures CountsInv(Step(s, cpu))
  {
    var s' := Step(s, cpu);
    if cpu in s.pcs && s' != s {
      SetsMove(s, s', cpu);
      assert cpu in Drawn(s) <==> s.pcs[cpu] != Start;
      assert cpu in Passed(s) <==> s.pcs[cpu] in {Once, Done};
      hide Drawn, Passed, TicketsInv;
      if s.pcs[cpu] != Start { assert Drawn(s) + {cpu} == Drawn(s); }
      if s.pcs[cpu] in {Once, Done} { assert Passed(s) + {cpu} == Passed(s); }
      if s.pcs[cpu].Leave? { assert s.pcs[cpu].ticket == s.owner by { LeaveOwner(s, cpu); } }
    }
  }

  lemma LeaveOwner(s: State, cpu: nat)
    requires TicketsInv(s) && cpu in s.pcs && Inside(s.pcs[cpu])
    ensures s.pcs[cpu].ticket == s.owner
  {
  }

  lemma OnceStep(s: State, cpu: nat)
    requires OnceInv(s)
    ensures OnceInv(Step(s, cpu)) && Step(s, cpu).pcs.Keys == s.pcs.Keys
  {
  }

  lemma StepKeeps(s: State, cpu: nat)
    requires Inv(s)
    ensures Inv(Step(s, cpu)) && Step(s, cpu).pcs.Keys == s.pcs.Keys
  {
    hide TicketsInv, EntriesInv, CountsInv, OnceInv, Step;
    TicketsStep(s, cpu);
    EntriesStep(s, cpu);
    CountsStep(s, cpu);
    OnceStep(s, cpu);
  }

  lemma {:induction false} EveryInterleavingKeeps(s: State, schedule: seq<nat>)
    requires Inv(s)
    ensures Inv(Run(s, schedule)) && Run(s, schedule).pcs.Keys == s.pcs.Keys
    decreases |schedule|
  {
    hide Inv, Step;
    if schedule != [] {
      StepKeeps(s, schedule[0]);
      EveryInterleavingKeeps(Step(s, schedule[0]), schedule[1..]);
    }
  }

  /** At most one CPU is inside in any interleaving, and entries happen in ticket order. */
  lemma MutualExclusion(cpus: set<nat>, schedule: seq<nat>, c: nat, d: nat)
    requires var s := Run(Init(cpus), schedule); c in s.pcs && d in s.pcs && Inside(s.pcs[c]) && Inside(s.pcs[d])
    ensures c == d
  {
    InitInv(cpus);
    EveryInterleavingKeeps(Init(cpus), schedule);
    InsideAlone(Run(Init(cpus), schedule), c, d);
  }

  lemma EntryInTicketOrder(cpus: set<nat>, schedule: seq<nat>)
    ensures var s := Run(Init(cpus), schedule);
      s.entries == |s.log| && forall i :: 0 <= i < |s.log| ==> s.log[i] == i
  {
    InitInv(cpus);
    EveryInterleavingKeeps(Init(cpus), schedule);
  }

  /** When every CPU is through, the lock is free, the entries equal the workers, and
      the first-comer cell names one of them. */
  lemma EveryoneEntered(cpus: set<nat>, schedule: seq<nat>)
    requires var s := Run(Init(cpus), schedule); forall c :: c in s.pcs ==> s.pcs[c] == Done
    ensures var s := Run(Init(cpus), schedule);
      && s.next == s.owner == s.entries == |cpus|
      && (cpus != {} ==> s.once - 1 in cpus)
  {
    InitInv(cpus);
    EveryInterleavingKeeps(Init(cpus), schedule);
    var s := Run(Init(cpus), schedule);
    hide Run;
    assert s.pcs.Keys == cpus;
    assert Drawn(s) == cpus && Passed(s) == cpus;
    if cpus != {} {
      assert (forall x :: x !in cpus) ==> cpus == {};
      var c :| c in cpus;
      assert s.pcs[c] == Done;
    }
  }

  /** The first-comer cell is written once. */
  lemma {:induction false} OnceWritten(s: State, schedule: seq<nat>)
    requires s.once != 0
    ensures Run(s, schedule).once == s.once
    decreases |schedule|
  {
    if schedule != [] { OnceWritten(Step(s, schedule[0]), schedule[1..]); }
  }

  // ---------------------------------------------------------------------
  // Refinement

  ghost function Tickets(s: State): set<int> {
    set c | c in s.pcs && HasTicket(s.pcs[c]) :: s.pcs[c].ticket
  }

  // The sequential lock that the atomic state stands for.
  ghost function Abstract(s: State): Lock {
    Lock(s.next, s.owner, Tickets(s))
  }

  lemma AbstractInv(s: State)
    requires TicketsInv(s) && s.next < U64_LIMIT
    ensures LockInv(Abstract(s))
  {
    forall t
      ensures t in Tickets(s) <==> t in Range(s.owner, s.next)
    {
      assert s.owner <= t < s.next <==> Holds(s, t);
      if Holds(s, t) {
        var c :| c in s.pcs && HasTicket(s.pcs[c]) && s.pcs[c].ticket == t;
      }
    }
  }

  /** Each atomic access is a successful operation of the sequential lock or leaves it
      unchanged: drawing is `enqueue`, seeing one's ticket is `acquire`, the store is
      `release`. */
  lemma StepRefines(s: State, cpu: nat)
    requires TicketsInv(s) && cpu in s.pcs && Step(s, cpu).next < U64_LIMIT
    ensures var s' := Step(s, cpu); var l, l' := Abstract(s), Abstract(s');
      match s.pcs[cpu]
      case Start => (l', Ok(s'.pcs[cpu].ticket)) == Enqueue(l)
      case Spin(t) => l' == l && (s'.pcs[cpu] == Enter(t) <==> Acquire(l, t) == Ok(t))
      case Enter(t) => l' == l && Acquire(l, t) == Ok(t)
      case Leave(t) => (l', Ok(())) == Release(l, t)
      case Once => l' == l
      case Done => l' == l
  {
    var s' := Step(s, cpu);
    TicketsStep(s, cpu);
    assert HasTicket(s.pcs[cpu]) ==> Holds(s, s.pcs[cpu].ticket);
    assert HasTicket(s.pcs[cpu]) ==> s.owner <= s.pcs[cpu].ticket < s.next;
    assert Inside(s.pcs[cpu]) ==> s.pcs[cpu].ticket == s.owner;
    AbstractInv(s);
    AbstractInv(s');
    hide TicketsInv, Tickets, Range;
    SameLock(Abstract(s), Abstract(s'));
  }

  // Locks that keep the invariant are determined by their two counters.
  lemma SameLock(l: Lock, l': Lock)
    requires LockInv(l) && LockInv(l')
    ensures l'.next == l.next && l'.owner == l.owner ==> l' == l
    ensures l'.next == l.next + 1 && l'.owner == l.owner ==> (l', Ok(l.next)) == Enqueue(l)
    ensures l'.next == l.next && l'.owner == l.owner + 1 ==> (l', Ok(())) == Release(l, l.owner)
  {
    assert Range(l.owner, l.next + 1) == Range(l.owner, l.next) + {l.next};
    assert Range(l.owner, l.next) - {l.owner} == Range(l.owner + 1, l.next);
  }

  // The operations of the sequential lock that one access stands for.
  ghost function Meaning(s: State, cpu: nat): seq<LockOp> {
    if cpu !in s.pcs then []
    else match s.pcs[cpu]
      case Start => [TakeTicket]
      case Spin(t) => if s.owner == t then [TryAcquire(t)] else []
      case Leave(t) => [GiveBack(t)]
      case _ => []
  }

  ghost function Meanings(s: State, schedule: seq<nat>): seq<LockOp>
    decreases |schedule|
  {
    if schedule == [] then [] else Meaning(s, schedule[0]) + Meanings(Step(s, schedule[0]), schedule[1..])
  }

  // Every operation succeeds where it is applied.
  ghost predicate AllSucceed(l: Lock, ops: seq<LockOp>)
    decreases |ops|
  {
    ops != [] ==>
      && (match ops[0]
          case TakeTicket => Enqueue(l).1.Ok?
          case TryAcquire(t) => Acquire(l, t).Ok?
          case GiveBack(t) => Release(l, t).1.Ok?)
      && AllSucceed(LockStep(l, ops[0]), ops[1..])
  }

  lemma {:induction false} LockRunConcat(l: Lock, a: seq<LockOp>, b: seq<LockOp>)
    ensures LockRun(l, a + b) == LockRun(LockRun(l, a), b)
    ensures AllSucceed(l, a) && AllSucceed(LockRun(l, a), b) ==> AllSucceed(l, a + b)
    decreases |a|
  {
    if a == [] {
      assert a + b == b;
    } else {
      LockRunConcat(LockStep(l, a[0]), a[1..], b);
      assert (a + b)[0] == a[0] && (a + b)[1..] == a[1..] + b;
    }
  }

  lemma OneSucceeds(s: State, cpu: nat)
    requires TicketsInv(s) && Step(s, cpu).next < U64_LIMIT
    ensures LockRun(Abstract(s), Meaning(s, cpu)) == Abstract(Step(s, cpu)) && AllSucceed(Abstract(s), Meaning(s, cpu))
  {
    if cpu in s.pcs {
      StepRefines(s, cpu);
      hide TicketsInv, Abstract;
      var l, ops := Abstract(s), Meaning(s, cpu);
      if ops != [] { assert ops[1..] == []; }
    }
  }

  // Fewer tickets are drawn than there are CPUs.
  lemma NextBounded(s: State)
    requires CountsInv(s)
    ensures s.next <= |s.pcs|
  {
    var rest := s.pcs.Keys - Drawn(s);
    assert s.pcs.Keys == Drawn(s) + rest && Drawn(s) !! rest;
    assert |s.pcs| == |s.pcs.Keys|;
  }

  /** Every interleaving refines a run of the sequential lock in which every operation
      succeeds. */
  lemma {:induction false} RunRefines(s: State, schedule: seq<nat>)
    requires Inv(s) && |s.pcs| < U64_LIMIT
    ensures Abstract(Run(s, schedule)) == LockRun(Abstract(s), Meanings(s, schedule))
    ensures AllSucceed(Abstract(s), Meanings(s, schedule))
    decreases |schedule|
  {
    hide TicketsInv, EntriesInv, CountsInv, OnceInv, Step, Abstract, LockRun, AllSucceed, Meaning;
    if schedule == [] {
      LockRunNone(Abstract(s));
    } else {
      var cpu, s' := schedule[0], Step(s, schedule[0]);
      StepKeeps(s, cpu);
      SameSize(s, s');
      NextBounded(s');
      OneSucceeds(s, cpu);
      RunRefines(s', schedule[1..]);
      LockRunConcat(Abstract(s), Meaning(s, cpu), Meanings(s', schedule[1..]));
    }
  }

  lemma SameSize(s: State, s': State)
    requires s.pcs.Keys == s'.pcs.Keys
    ensures |s.pcs| == |s'.pcs|
  {
    assert |s.pcs| == |s.pcs.Keys| && |s'.pcs| == |s'.pcs.Keys|;
  }

  lemma LockRunNone(l: Lock)
    ensures LockRun(l, []) == l && AllSucceed(l, [])
  {
  }

  /** From the start: the lock a schedule leaves is the one its operations leave. */
  lemma EveryScheduleRefines(cpus: set<nat>, schedule: seq<nat>)
    requires |cpus| < U64_LIMIT
    ensures Abstract(Run(Init(cpus), schedule)) == LockRun(Unlocked, Meanings(Init(cpus), schedule))
    ensures AllSucceed(Unlocked, Meanings(Init(cpus), schedule))
  {
    InitInv(cpus);
    var s := Init(cpus);
    assert s.pcs.Keys == cpus && |s.pcs| == |cpus|;
    assert forall c :: c in s.pcs ==> !HasTicket(s.pcs[c]);
    assert Tickets(s) == {};
    RunRefines(s, schedule);
  }
}

/** Processor lifecycle, inter-processor interrupts and TLB shootdowns, each with an
    epoch that its targets acknowledge. */
module Smp {
  import opened Wrappers
  import opened Machine
  import opened Ordered

  datatype Failure = NoStack | NoLocalStorage | StartupTimeout | DescriptorInstall | InterruptController
  datatype Lifecycle = Discovered | Prepared | Starting | Online | Failed(failure: Failure)

  datatype Error =
    | DuplicateCpu | UnknownCpu | IllegalTransition | CpuNotOnline | EpochOverflow | UnknownEpoch
    | ForeignCpu | DuplicateAcknowledgement | StaleEpoch | Incomplete

  datatype Pending = Pending(targets: set<int>, acks: set<int>)
  type Epochs = map<int, Pending>

  datatype State = State(
    cpus: map<int, Lifecycle>, nextIpi: int, nextShootdown: int, ipis: Epochs, shootdowns: Epochs)

  const Boot := State(map[], 0, 0, map[], map[])

  // The record is replaced before the duplicate is reported.
  function Discover(s: State, cpu: int): (State, Result<(), Error>) {
    (s.(cpus := s.cpus[cpu := Discovered]), if cpu in s.cpus then Err(DuplicateCpu) else Ok(()))
  }

  predicate Legal(from: Lifecycle, to: Lifecycle) {
    || (from == Discovered && to == Prepared)
    || (from == Prepared && to == Starting)
    || (from == Starting && to == Online)
    || (from == Prepared && to.Failed?)
    || (from == Starting && to.Failed?)
  }

  function Transition(s: State, cpu: int, next: Lifecycle): (State, Result<(), Error>) {
    if cpu !in s.cpus then (s, Err(UnknownCpu))
    else if !Legal(s.cpus[cpu], next) then (s, Err(IllegalTransition))
    else (s.(cpus := s.cpus[cpu := next]), Ok(()))
  }

  function OnlineCpus(s: State): set<int> {
    set c | c in s.cpus && s.cpus[c] == Online
  }

  function BeginIpi(s: State, targets: set<int>): (State, Result<int, Error>) {
    if exists c :: c in targets && !(c in s.cpus && s.cpus[c] == Online) then (s, Err(CpuNotOnline))
    else if s.nextIpi + 1 >= U64_LIMIT then (s, Err(EpochOverflow))
    else
      var e := s.nextIpi + 1;
      (s.(nextIpi := e, ipis := s.ipis[e := Pending(targets, {})]), Ok(e))
  }

  function BeginShootdown(s: State): (State, Result<int, Error>) {
    if s.nextShootdown + 1 >= U64_LIMIT then (s, Err(EpochOverflow))
    else
      var e := s.nextShootdown + 1;
      (s.(nextShootdown := e, shootdowns := s.shootdowns[e := Pending(OnlineCpus(s), {})]), Ok(e))
  }

  // Only the newest pending epoch takes acknowledgements.
  function Acknowledge(p: Epochs, epoch: int, cpu: int): (Epochs, Result<bool, Error>) {
    if p == map[] then (p, Err(UnknownEpoch))
    else
      var current := Greatest(p.Keys);
      if epoch < current then (p, Err(StaleEpoch))
      else if epoch !in p then (p, Err(UnknownEpoch))
      else if cpu !in p[epoch].targets then (p, Err(ForeignCpu))
      else if cpu in p[epoch].acks then (p, Err(DuplicateAcknowledgement))
      else
        var entry := p[epoch].(acks := p[epoch].acks + {cpu});
        (p[epoch := entry], Ok(entry.acks == entry.targets))
  }

  function CompleteShootdown(s: State, epoch: int): (State, Result<(), Error>) {
    if epoch !in s.shootdowns then (s, Err(UnknownEpoch))
    else if s.shootdowns[epoch].acks != s.shootdowns[epoch].targets then (s, Err(Incomplete))
    else (s.(shootdowns := s.shootdowns - {epoch}), Ok(()))
  }

  /** An acknowledgement is accepted exactly for the newest pending epoch, from a target
      not yet counted; it is counted, and completes the epoch exactly when it is the last. */
  lemma AcceptedExactly(p: Epochs, epoch: int, cpu: int)
    ensures Acknowledge(p, epoch, cpu).1.Ok? <==>
      epoch in p && IsGreatest(p.Keys, epoch) && cpu in p[epoch].targets && cpu !in p[epoch].acks
    ensures Acknowledge(p, epoch, cpu).1.Err? ==> Acknowledge(p, epoch, cpu).0 == p
    ensures Acknowledge(p, epoch, cpu).1.Ok? ==>
      && Acknowledge(p, epoch, cpu).0 == p[epoch := Pending(p[epoch].targets, p[epoch].acks + {cpu})]
      && (Acknowledge(p, epoch, cpu).1.value <==> p[epoch].targets == p[epoch].acks + {cpu})
  {
    assert p != map[] ==> p.Keys != {};
  }

  function Stage(l: Lifecycle): int {
    match l case Discovered => 0 case Prepared => 1 case Starting => 2 case Online => 3 case Failed(_) => 4
  }

  /** The lifecycle goes stage by stage to online; it may fail while being prepared or
      started, and ends there or online. */
  lemma LegalExactly(from: Lifecycle, to: Lifecycle)
    ensures Legal(from, to) <==> Stage(from) <= 2 && (Stage(to) == Stage(from) + 1 || (Stage(to) == 4 && Stage(from) >= 1))
  {
  }

  /** Rediscovering a known CPU is refused, and takes it back to the start of its lifecycle. */
  lemma DuplicateResets(s: State, cpu: int)
    requires cpu in s.cpus
    ensures Discover(s, cpu).1 == Err(DuplicateCpu) && Discover(s, cpu).0.cpus[cpu] == Discovered
    ensures OnlineCpus(Discover(s, cpu).0) == OnlineCpus(s) - {cpu}
  {
  }
}

/** What holds over every run of the SMP state. */
module SmpRuns {
  import opened Wrappers
  import opened Ordered
  import opened Smp

  datatype Op =
    | DiscoverCpu(cpu: int) | TransitionCpu(cpu: int, next: Lifecycle)
    | StartIpi(targets: set<int>) | AckIpi(epoch: int, cpu: int)
    | StartShootdown | AckShootdown(epoch: int, cpu: int) | FinishShootdown(epoch: int)

  // The state with its history. For each shootdown ever begun: who was online then, and
  // who has acknowledged it since. For both kinds: the epochs reported complete, in order.
  datatype History = History(
    s: State,
    onlineAt: map<int, set<int>>, acked: map<int, set<int>>,
    shootdownsDone: seq<int>, ipisDone: seq<int>)

  const Empty := History(Boot, map[], map[], [], [])

  function Step(h: History, op: Op): History {
    match op
    case DiscoverCpu(c) => h.(s := Discover(h.s, c).0)
    case TransitionCpu(c, next) => h.(s := Transition(h.s, c, next).0)
    case StartIpi(targets) => h.(s := BeginIpi(h.s, targets).0)
    case AckIpi(e, c) =>
      var (p, r) := Acknowledge(h.s.ipis, e, c);
      h.(s := h.s.(ipis := p), ipisDone := if r == Ok(true) then h.ipisDone + [e] else h.ipisDone)
    case StartShootdown =>
      var (s', r) := BeginShootdown(h.s);
      if r.Err? then h.(s := s')
      else h.(s := s', onlineAt := h.onlineAt[r.value := OnlineCpus(h.s)], acked := h.acked[r.value := {}])
    case AckShootdown(e, c) =>
      var (p, r) := Acknowledge(h.s.shootdowns, e, c);
      var h' := h.(s := h.s.(shootdowns := p));
      if r.Err? then h'
      else h'.(acked := if e in h.acked then h.acked[e := h.acked[e] + {c}] else h.acked,
               shootdownsDone := if r.value then h.shootdownsDone + [e] else h.shootdownsDone)
    case FinishShootdown(e) => h.(s := CompleteShootdown(h.s, e).0)
  }

  ghost function Run(h: History, ops: seq<Op>): History
    decreases |ops|
  {
    if ops == [] then h else Run(Step(h, ops[0]), ops[1..])
  }

  predicate NoDup(q: seq<int>) {
    forall i, j :: 0 <= i < j < |q| ==> q[i] != q[j]
  }

  ghost predicate ShootdownsInv(h: History) {
    && h.s.nextShootdown >= 0 && h.onlineAt.Keys == h.acked.Keys
    && (forall e :: e in h.acked ==> 1 <= e <= h.s.nextShootdown && h.acked[e] <= h.onlineAt[e])
    && (forall e :: e in h.s.shootdowns ==> e in h.acked && h.s.shootdowns[e] == Pending(h.onlineAt[e], h.acked[e]))
    && NoDup(h.shootdownsDone)
    && (forall e :: e in h.shootdownsDone ==> e in h.acked && h.acked[e] == h.onlineAt[e])
  }

  ghost predicate IpisInv(h: History) {
    && h.s.nextIpi >= 0
    && (forall e :: e in h.s.ipis <==> 1 <= e <= h.s.nextIpi)
    && (forall e :: e in h.s.ipis ==> h.s.ipis[e].acks <= h.s.ipis[e].targets)
    && NoDup(h.ipisDone)
    && (forall e :: e in h.ipisDone ==> e in h.s.ipis && h.s.ipis[e].acks == h.s.ipis[e].targets)
  }

  ghost predicate Inv(h: History) {
    ShootdownsInv(h) && IpisInv(h)
  }

  lemma SnocNoDup(q: seq<int>, e: int)
    requires NoDup(q) && e !in q
    ensures NoDup(q + [e])
  {
  }

  lemma AckShootdownKeeps(h: History, e: int, c: int)
    requires ShootdownsInv(h)
    ensures ShootdownsInv(Step(h, AckShootdown(e, c)))
  {
    AcceptedExactly(h.s.shootdowns, e, c);
    if Acknowledge(h.s.shootdowns, e, c).1.Ok? {
      assert e !in h.shootdownsDone;
      SnocNoDup(h.shootdownsDone, e);
    }
    hide NoDup, Greatest;
  }

  lemma AckIpiKeeps(h: History, e: int, c: int)
    requires IpisInv(h)
    ensures IpisInv(Step(h, AckIpi(e, c)))
  {
    AcceptedExactly(h.s.ipis, e, c);
    if Acknowledge(h.s.ipis, e, c).1.Ok? {
      assert e !in h.ipisDone;
      SnocNoDup(h.ipisDone, e);
    }
    hide NoDup, Greatest;
  }

  lemma StepKeeps(h: History, op: Op)
    requires Inv(h)
    ensures Inv(Step(h, op))
  {
    hide NoDup, OnlineCpus, Acknowledge, BeginIpi, BeginShootdown, CompleteShootdown;
    match op {
      case AckShootdown(e, c) => AckShootdownKeeps(h, e, c);
      case AckIpi(e, c) => AckIpiKeeps(h, e, c);
      case DiscoverCpu(c) => SameEpochs(h, Step(h, op));
      case TransitionCpu(c, next) => SameEpochs(h, Step(h, op));
      case StartIpi(targets) => StartIpiKeeps(h, targets);
      case StartShootdown => StartShootdownKeeps(h);
      case FinishShootdown(e) => FinishKeeps(h, e);
    }
  }

  lemma SameEpochs(h: History, h': History)
    requires Inv(h) && h' == h.(s := h.s.(cpus := h'.s.cpus))
    ensures Inv(h')
  {
    hide NoDup;
  }

  lemma StartIpiKeeps(h: History, targets: set<int>)
    requires Inv(h)
    ensures Inv(Step(h, StartIpi(targets)))
  {
    hide NoDup;
  }

  lemma StartShootdownKeeps(h: History)
    requires Inv(h)
    ensures Inv(Step(h, StartShootdown))
  {
    hide NoDup, OnlineCpus;
  }

  lemma FinishKeeps(h: History, e: int)
    requires Inv(h)
    ensures Inv(Step(h, FinishShootdown(e)))
  {
    hide NoDup;
  }

  lemma {:induction false} RunKeeps(h: History, ops: seq<Op>)
    requires Inv(h)
    ensures Inv(Run(h, ops))
    decreases |ops|
  {
    hide Inv, Step;
    if ops != [] {
      StepKeeps(h, ops[0]);
      RunKeeps(Step(h, ops[0]), ops[1..]);
    }
  }

  /** A shootdown completes exactly when it is pending and every CPU that was online when it
      began has acknowledged it since. */
  lemma CompletesExactly(ops: seq<Op>, e: int)
    ensures var h := Run(Empty, ops);
      CompleteShootdown(h.s, e).1.Ok? <==>
        e in h.s.shootdowns && e in h.onlineAt && e in h.acked && h.onlineAt[e] <= h.acked[e]
  {
    RunKeeps(Empty, ops);
    hide Run;
  }

  /** No epoch is reported complete twice. */
  lemma CompleteReportedOnce(ops: seq<Op>)
    ensures NoDup(Run(Empty, ops).shootdownsDone) && NoDup(Run(Empty, ops).ipisDone)
  {
    RunKeeps(Empty, ops);
  }

  // The recorded history of a shootdown is what the run did: set at the beginning,
  // and grown only by accepted acknowledgements.
  lemma OnlineAtKept(h: History, op: Op, e: int)
    requires Inv(h) && e in h.onlineAt
    ensures e in Step(h, op).onlineAt && Step(h, op).onlineAt[e] == h.onlineAt[e]
    ensures e in Step(h, op).acked && h.acked[e] <= Step(h, op).acked[e]
  {
    assert e in h.acked;
    hide NoDup, OnlineCpus, Greatest;
  }

  // ---------------------------------------------------------------------
  // Superseded interrupts

  lemma SupersededStep(h: History, op: Op, e: int)
    requires IpisInv(h) && 1 <= e < h.s.nextIpi
    ensures e in h.s.ipis && e in Step(h, op).s.ipis && Step(h, op).s.ipis[e] == h.s.ipis[e]
    ensures e < Step(h, op).s.nextIpi
  {
    assert e in h.s.ipis && h.s.nextIpi in h.s.ipis;
    if op.AckIpi? { AcceptedExactly(h.s.ipis, op.epoch, op.cpu); }
    hide NoDup, OnlineCpus, Greatest;
  }

  /** Once a newer interrupt has begun, the acknowledgements of an older one never change. */
  lemma {:induction false} SupersededFrozen(h: History, ops: seq<Op>, e: int)
    requires Inv(h) && 1 <= e < h.s.nextIpi
    ensures e in h.s.ipis && e in Run(h, ops).s.ipis && Run(h, ops).s.ipis[e] == h.s.ipis[e]
    decreases |ops|
  {
    hide Step, NoDup;
    if ops != [] {
      SupersededStep(h, ops[0], e);
      StepKeeps(h, ops[0]);
      SupersededFrozen(Step(h, ops[0]), ops[1..], e);
    }
  }

  // ---------------------------------------------------------------------
  // Draining

  lemma {:induction false} RunConcat(h: History, a: seq<Op>, b: seq<Op>)
    ensures Run(h, a + b) == Run(Run(h, a), b)
    decreases |a|
  {
    hide Step;
    if a == [] {
      assert a + b == b;
    } else {
      RunConcat(Step(h, a[0]), a[1..], b);
      assert (a + b)[0] == a[0] && (a + b)[1..] == a[1..] + b;
    }
  }

  lemma RunOne(h: History, op: Op)
    ensures Run(h, [op]) == Step(h, op)
  {
    assert [op][1..] == [];
  }

  // The missing acknowledgements of the newest shootdown, one by one.
  lemma {:induction false} AcknowledgeAll(h: History, e: int) returns (ops: seq<Op>)
    requires Inv(h) && e in h.s.shootdowns && IsGreatest(h.s.shootdowns.Keys, e)
    ensures Inv(Run(h, ops)) && Run(h, ops).s.shootdowns.Keys == h.s.shootdowns.Keys
    ensures var p := Run(h, ops).s.shootdowns[e]; p.acks == p.targets
    ensures forall i :: 0 <= i < |ops| ==> ops[i].AckShootdown?
    decreases |h.s.shootdowns[e].targets - h.s.shootdowns[e].acks|
  {
    var p := h.s.shootdowns[e];
    var missing := p.targets - p.acks;
    if missing == {} {
      ops := [];
      assert p == Pending(h.onlineAt[e], h.acked[e]) && p.acks <= p.targets;
      assert forall x :: x in p.targets ==> x !in missing;
      assert p.acks == p.targets;
    } else {
      assert (forall x :: x !in missing) ==> missing == {};
      var c :| c in missing;
      hide Inv, Step;
      AcknowledgeOne(h, e, c);
      var rest := AcknowledgeAll(Step(h, AckShootdown(e, c)), e);
      ops := [AckShootdown(e, c)] + rest;
      assert ops[1..] == rest;
    }
  }

  lemma AcknowledgeOne(h: History, e: int, c: int)
    requires Inv(h) && e in h.s.shootdowns && IsGreatest(h.s.shootdowns.Keys, e)
    requires c in h.s.shootdowns[e].targets - h.s.shootdowns[e].acks
    ensures var h' := Step(h, AckShootdown(e, c));
      && Inv(h') && h'.s.shootdowns.Keys == h.s.shootdowns.Keys
      && h'.s.shootdowns[e].targets - h'.s.shootdowns[e].acks == h.s.shootdowns[e].targets - h.s.shootdowns[e].acks - {c}
  {
    StepKeeps(h, AckShootdown(e, c));
    AcceptedExactly(h.s.shootdowns, e, c);
    hide Inv, Acknowledge;
  }

  // The epochs a list of operations completes, in order.
  ghost function Completed(ops: seq<Op>): seq<int> {
    if ops == [] then []
    else (if ops[0].FinishShootdown? then [ops[0].epoch] else []) + Completed(ops[1..])
  }

  predicate Descending(q: seq<int>) {
    forall i, j :: 0 <= i < j < |q| ==> q[i] > q[j]
  }

  lemma CompletedCons(op: Op, ops: seq<Op>)
    ensures Completed([op] + ops) == (if op.FinishShootdown? then [op.epoch] else []) + Completed(ops)
  {
    assert ([op] + ops)[1..] == ops;
  }

  // Acknowledgements complete nothing.
  lemma {:induction false} AcksComplete(acks: seq<Op>, rest: seq<Op>)
    requires forall i :: 0 <= i < |acks| ==> acks[i].AckShootdown?
    ensures Completed(acks + rest) == Completed(rest)
  {
    hide Completed;
    if acks == [] {
      assert acks + rest == rest;
    } else {
      AcksComplete(acks[1..], rest);
      CompletedCons(acks[0], acks[1..] + rest);
      assert acks + rest == [acks[0]] + (acks[1..] + rest);
    }
  }

  lemma DescendingCons(e: int, q: seq<int>, pending: set<int>)
    requires IsGreatest(pending, e) && Descending(q) && forall x :: x in q <==> x in pending - {e}
    ensures Descending([e] + q) && forall x :: x in [e] + q <==> x in pending
  {
    forall i | 0 <= i < |q|
      ensures q[i] < e
    {
      assert q[i] in q;
    }
  }

  // Acknowledge and complete the newest shootdown.
  lemma DrainNewest(h: History) returns (acks: seq<Op>, e: int)
    requires Inv(h) && h.s.shootdowns != map[]
    ensures IsGreatest(h.s.shootdowns.Keys, e) && forall i :: 0 <= i < |acks| ==> acks[i].AckShootdown?
    ensures var h2 := Step(Run(h, acks), FinishShootdown(e));
      Inv(h2) && h2.s.shootdowns.Keys == h.s.shootdowns.Keys - {e} && |h2.s.shootdowns| < |h.s.shootdowns|
  {
    assert h.s.shootdowns.Keys != {};
    e := Greatest(h.s.shootdowns.Keys);
    acks := AcknowledgeAll(h, e);
    var h1 := Run(h, acks);
    StepKeeps(h1, FinishShootdown(e));
    hide Run, Inv;
    Smaller(Step(h1, FinishShootdown(e)).s.shootdowns, h.s.shootdowns, e);
  }

  lemma RunThenFinish(h: History, acks: seq<Op>, e: int, rest: seq<Op>)
    ensures Run(h, acks + ([FinishShootdown(e)] + rest)) == Run(Step(Run(h, acks), FinishShootdown(e)), rest)
  {
    hide Step, Run;
    RunConcat(h, acks, [FinishShootdown(e)] + rest);
    RunConcat(Run(h, acks), [FinishShootdown(e)], rest);
    RunOne(Run(h, acks), FinishShootdown(e));
  }

  /** From every reachable state acknowledgements and completions alone drain all pending
      shootdowns, each completed once, newest first. */
  lemma {:induction false} CanDrain(h: History) returns (ops: seq<Op>)
    requires Inv(h)
    ensures Run(h, ops).s.shootdowns == map[] && Inv(Run(h, ops))
    ensures forall i :: 0 <= i < |ops| ==> ops[i].AckShootdown? || ops[i].FinishShootdown?
    ensures Descending(Completed(ops)) && forall e :: e in Completed(ops) <==> e in h.s.shootdowns.Keys
    decreases |h.s.shootdowns|
  {
    if h.s.shootdowns == map[] {
      ops := [];
    } else {
      hide Inv, Step, Completed, Descending, Run, IsGreatest;
      var acks, e := DrainNewest(h);
      var rest := CanDrain(Step(Run(h, acks), FinishShootdown(e)));
      ops := acks + ([FinishShootdown(e)] + rest);
      RunThenFinish(h, acks, e, rest);
      DrainOrder(acks, e, rest, h.s.shootdowns.Keys);
    }
  }

  lemma DrainOrder(acks: seq<Op>, e: int, rest: seq<Op>, keys: set<int>)
    requires forall i :: 0 <= i < |acks| ==> acks[i].AckShootdown?
    requires e in keys && IsGreatest(keys, e) && Descending(Completed(rest))
    requires forall x :: x in Completed(rest) <==> x in keys - {e}
    ensures var done := Completed(acks + ([FinishShootdown(e)] + rest));
      Descending(done) && forall x :: x in done <==> x in keys
  {
    hide Completed;
    AcksComplete(acks, [FinishShootdown(e)] + rest);
    CompletedCons(FinishShootdown(e), rest);
    DescendingCons(e, Completed(rest), keys);
    hide Descending, IsGreatest;
  }

  lemma Smaller(a: Epochs, b: Epochs, e: int)
    requires e in b && a.Keys == b.Keys - {e}
    ensures |a| < |b|
  {
    assert |a| == |a.Keys| && |b| == |b.Keys|;
  }
}

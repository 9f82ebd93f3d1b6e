/** The rendezvous and shared work queue that every CPU runs, as an interleaving of
    single atomic accesses. Each worker first takes one seed task, waits until all
    seeds are taken, then claims tasks from a shared counter. Two rendezvous are
    in use: a gate that the last arrival opens, and the arrival counter itself. */
module WorkQueue {

  // `workers` expected arrivals, `tasks` task indices, and which rendezvous.
  datatype Config = Config(workers: nat, tasks: nat, gated: bool)

  predicate Usable(cfg: Config) {
    1 <= cfg.workers <= cfg.tasks
  }

  // Where a CPU is: the next access it performs, and its registers.
  datatype Pc =
    | Arrive
    | AddSeed(seed: nat)
    | CountIn(seed: nat)
    | LoadMax(seed: nat, candidate: int)
    | RaiseMax(seed: nat, candidate: int, observed: int)
    | OpenGate(seed: nat)
    | Wait
    | Claim
    | AddTask(task: nat)
    | CountOut
    | Done(worked: bool)

  // `log` and `completed` are history: the tasks added to `sum`, in order, and the
  // candidates whose `observe_max` has returned.
  datatype State = State(
    ready: nat, gate: bool, next: nat, sum: nat, active: int, max: int,
    pcs: map<int, Pc>, log: seq<nat>, completed: set<int>)

  function Init(cfg: Config, cpus: set<int>): State {
    State(0, false, cfg.workers, 0, 0, 0, map c | c in cpus :: Arrive, [], {})
  }

  predicate Open(cfg: Config, s: State) {
    if cfg.gated then s.gate else s.ready == cfg.workers
  }

  // One access by one CPU; `spurious` makes a weak compare-exchange fail.
  function Step(cfg: Config, s: State, cpu: int, spurious: bool): State {
    if cpu !in s.pcs then s
    else match s.pcs[cpu]
      case Arrive =>
        At(s.(ready := s.ready + 1), cpu, if s.ready >= cfg.workers then Done(false) else AddSeed(s.ready))
      case AddSeed(seed) =>
        At(s.(sum := s.sum + seed, log := s.log + [seed]), cpu, if cfg.gated then CountIn(seed) else Wait)
      case CountIn(seed) =>
        At(s.(active := s.active + 1), cpu, LoadMax(seed, s.active + 1))
      case LoadMax(seed, candidate) =>
        At(s, cpu, RaiseMax(seed, candidate, s.max))
      case RaiseMax(seed, candidate, observed) =>
        if candidate <= observed then At(s.(completed := s.completed + {candidate}), cpu, OpenGate(seed))
        else if s.max == observed && !spurious then
          At(s.(max := candidate, completed := s.completed + {candidate}), cpu, OpenGate(seed))
        else At(s, cpu, RaiseMax(seed, candidate, s.max))
      case OpenGate(seed) =>
        At(if seed + 1 == cfg.workers then s.(gate := true) else s, cpu, Wait)
      case Wait =>
        if Open(cfg, s) then At(s, cpu, Claim) else s
      case Claim =>
        At(s.(next := s.next + 1), cpu, if s.next < cfg.tasks then AddTask(s.next) else CountOut)
      case AddTask(task) =>
        At(s.(sum := s.sum + task, log := s.log + [task]), cpu, Claim)
      case CountOut =>
        At(if cfg.gated then s.(active := s.active - 1) else s, cpu, Done(true))
      case Done(_) => s
  }

  function At(s: State, cpu: int, pc: Pc): State {
    s.(pcs := s.pcs[cpu := pc])
  }

  ghost function Run(cfg: Config, s: State, schedule: seq<(int, bool)>): State
    decreases |schedule|
  {
    if schedule == [] then s
    else Run(cfg, Step(cfg, s, schedule[0].0, schedule[0].1), schedule[1..])
  }

  // ---------------------------------------------------------------------
  // The invariant

  // A task handed out and not yet added.
  predicate Holds(pc: Pc, t: nat) {
    pc == AddSeed(t) || pc == AddTask(t)
  }

  ghost predicate Held(s: State, t: nat) {
    exists c :: c in s.pcs && Holds(s.pcs[c], t)
  }

  // A task handed out: a seed below the arrivals, or below the shared counter.
  predicate Issued(cfg: Config, s: State, t: nat) {
    (t < s.ready && t < cfg.workers) || (cfg.workers <= t < s.next && t < cfg.tasks)
  }

  predicate NoDup(log: seq<nat>) {
    forall i, j :: 0 <= i < j < |log| ==> log[i] != log[j]
  }

  function Sum(log: seq<nat>): nat {
    if log == [] then 0 else Sum(log[..|log| - 1]) + log[|log| - 1]
  }

  // Every task handed out is in exactly one place: added once, or held by one CPU.
  ghost predicate TasksInv(cfg: Config, s: State) {
    && NoDup(s.log)
    && s.sum == Sum(s.log)
    && (forall t: nat :: Issued(cfg, s, t) <==> t in s.log || Held(s, t))
    && (forall c, t: nat :: c in s.pcs && Holds(s.pcs[c], t) ==> t !in s.log)
    && (forall c, d, t: nat :: c in s.pcs && d in s.pcs && Holds(s.pcs[c], t) && Holds(s.pcs[d], t) ==> c == d)
  }

  // What a CPU's place says about the shared counters.
  predicate PlaceInv(cfg: Config, s: State, pc: Pc) {
    match pc
    case Arrive => true
    case Wait => true
    case Claim => s.ready >= cfg.workers
    case AddTask(_) => s.ready >= cfg.workers
    case CountOut => s.ready >= cfg.workers && s.next >= cfg.tasks
    case Done(worked) => worked ==> s.ready >= cfg.workers && s.next >= cfg.tasks
    case _ => pc.seed < s.ready && pc.seed < cfg.workers
  }

  // The shared counter moves only once every seed is taken.
  ghost predicate PhaseInv(cfg: Config, s: State) {
    && s.next >= cfg.workers
    && (s.next > cfg.workers || s.gate ==> s.ready >= cfg.workers)
    && (forall c :: c in s.pcs ==> PlaceInv(cfg, s, s.pcs[c]))
  }

  // Some arrival became a worker.
  ghost predicate WorkerInv(s: State) {
    && (s.ready > 0 ==> exists c :: c in s.pcs && !s.pcs[c].Arrive? && s.pcs[c] != Done(false))
    && (forall c :: c in s.pcs && !s.pcs[c].Arrive? ==> s.ready > 0)
  }

  // The running maximum is exactly the greatest candidate observed.
  ghost predicate MaxInv(s: State) {
    && (forall x :: x in s.completed ==> x <= s.max)
    && (s.max == 0 || s.max in s.completed)
    && (forall c :: c in s.pcs && s.pcs[c].RaiseMax? ==> s.pcs[c].observed <= s.max)
  }

  // Between counting itself in and out, behind the gate.
  predicate Active(pc: Pc) {
    pc.LoadMax? || pc.RaiseMax? || pc.OpenGate? || pc.Wait? || pc.Claim? || pc.AddTask? || pc.CountOut?
  }

  ghost function ActiveCpus(s: State): set<int> {
    set c | c in s.pcs && Active(s.pcs[c])
  }

  // The active counter counts exactly the active CPUs, so candidates are within 1 and the CPU count.
  ghost predicate ActiveInv(cfg: Config, s: State) {
    cfg.gated ==>
      && s.active == |ActiveCpus(s)|
      && (forall x :: x in s.completed ==> 1 <= x <= |s.pcs|)
      && (forall c :: c in s.pcs && (s.pcs[c].LoadMax? || s.pcs[c].RaiseMax?) ==> 1 <= s.pcs[c].candidate <= |s.pcs|)
  }

  ghost predicate Inv(cfg: Config, s: State) {
    TasksInv(cfg, s) && PhaseInv(cfg, s) && WorkerInv(s) && MaxInv(s) && ActiveInv(cfg, s)
  }

  lemma InitInv(cfg: Config, cpus: set<int>)
    requires Usable(cfg)
    ensures Inv(cfg, Init(cfg, cpus))
  {
    var s := Init(cfg, cpus);
    assert forall c :: c in s.pcs ==> !Active(s.pcs[c]);
    assert ActiveCpus(s) == {};
  }

  // ---------------------------------------------------------------------
  // Every step keeps it

  // A step that hands out task t to a CPU.
  lemma HandOut(cfg: Config, s: State, s': State, cpu: int, t: nat)
    requires TasksInv(cfg, s) && cpu in s.pcs && !s.pcs[cpu].AddSeed? && !s.pcs[cpu].AddTask?
    requires s'.log == s.log && s'.sum == s.sum && cpu in s'.pcs && s'.pcs == s.pcs[cpu := s'.pcs[cpu]]
    requires Holds(s'.pcs[cpu], t) && !Issued(cfg, s, t)
    requires forall x: nat :: Issued(cfg, s', x) <==> x == t || Issued(cfg, s, x)
    ensures TasksInv(cfg, s')
  {
    forall x: nat
      ensures Held(s', x) <==> x == t || Held(s, x)
    {
      if Held(s, x) {
        var c :| c in s.pcs && Holds(s.pcs[c], x);
        assert Holds(s'.pcs[c], x);
      }
    }
    assert !Held(s, t) && t !in s.log;
  }

  // A step that adds a held task.
  lemma Add(cfg: Config, s: State, s': State, cpu: int, t: nat)
    requires TasksInv(cfg, s) && cpu in s.pcs && Holds(s.pcs[cpu], t)
    requires s'.log == s.log + [t] && s'.sum == s.sum + t && cpu in s'.pcs && s'.pcs == s.pcs[cpu := s'.pcs[cpu]]
    requires !s'.pcs[cpu].AddSeed? && !s'.pcs[cpu].AddTask?
    requires s'.ready == s.ready && s'.next == s.next
    ensures TasksInv(cfg, s')
  {
    LogAppend(s.log, t);
    LetGo(cfg, s, s', cpu, t);
    HoldersStay(cfg, s, s', cpu, t);
    hide Held, Holds, NoDup, Sum;
    forall x: nat
      ensures Issued(cfg, s', x) <==> x in s'.log || Held(s', x)
    {
      assert Issued(cfg, s, x) <==> x in s.log || Held(s, x);
      assert x in s'.log <==> x in s.log || x == t;
      assert Issued(cfg, s', x) <==> Issued(cfg, s, x);
    }
  }

  lemma HoldersStay(cfg: Config, s: State, s': State, cpu: int, t: nat)
    requires TasksInv(cfg, s) && cpu in s.pcs && Holds(s.pcs[cpu], t)
    requires cpu in s'.pcs && s'.pcs == s.pcs[cpu := s'.pcs[cpu]]
    requires !s'.pcs[cpu].AddSeed? && !s'.pcs[cpu].AddTask?
    ensures forall c, x: nat :: c in s'.pcs && Holds(s'.pcs[c], x) ==> x !in s.log + [t]
    ensures forall c, d, x: nat ::
      c in s'.pcs && d in s'.pcs && Holds(s'.pcs[c], x) && Holds(s'.pcs[d], x) ==> c == d
  {
    forall c, x: nat | c in s'.pcs && Holds(s'.pcs[c], x)
      ensures c in s.pcs && Holds(s.pcs[c], x) && c != cpu
    {
    }
  }

  lemma LogAppend(log: seq<nat>, t: nat)
    requires NoDup(log) && t !in log
    ensures NoDup(log + [t]) && Sum(log + [t]) == Sum(log) + t
  {
    assert (log + [t])[..|log|] == log;
    assert forall i :: 0 <= i < |log| ==> log[i] in log;
  }

  lemma LetGo(cfg: Config, s: State, s': State, cpu: int, t: nat)
    requires TasksInv(cfg, s) && cpu in s.pcs && Holds(s.pcs[cpu], t)
    requires cpu in s'.pcs && s'.pcs == s.pcs[cpu := s'.pcs[cpu]]
    requires !s'.pcs[cpu].AddSeed? && !s'.pcs[cpu].AddTask?
    ensures Held(s, t) && forall x: nat :: Held(s', x) <==> x != t && Held(s, x)
  {
    forall x: nat
      ensures Held(s', x) <==> x != t && Held(s, x)
    {
      if x != t && Held(s, x) {
        var c :| c in s.pcs && Holds(s.pcs[c], x);
        assert Holds(s'.pcs[c], x);
      }
    }
  }

  // A step that touches no task.
  lemma Idle(cfg: Config, s: State, s': State, cpu: int)
    requires TasksInv(cfg, s) && cpu in s.pcs && cpu in s'.pcs && s'.pcs == s.pcs[cpu := s'.pcs[cpu]]
    requires !s.pcs[cpu].AddSeed? && !s.pcs[cpu].AddTask? && !s'.pcs[cpu].AddSeed? && !s'.pcs[cpu].AddTask?
    requires s'.log == s.log && s'.sum == s.sum
    requires forall x: nat :: Issued(cfg, s', x) <==> Issued(cfg, s, x)
    ensures TasksInv(cfg, s')
  {
    forall x: nat
      ensures Held(s', x) <==> Held(s, x)
    {
      if Held(s, x) {
        var c :| c in s.pcs && Holds(s.pcs[c], x);
        assert Holds(s'.pcs[c], x);
      }
    }
  }

  lemma TasksStep(cfg: Config, s: State, cpu: int, spurious: bool)
    requires Usable(cfg) && TasksInv(cfg, s) && PhaseInv(cfg, s)
    ensures TasksInv(cfg, Step(cfg, s, cpu, spurious))
  {
    var s' := Step(cfg, s, cpu, spurious);
    hide TasksInv;
    if cpu in s.pcs {
      match s.pcs[cpu] {
        case Arrive => if s.ready < cfg.workers { HandOut(cfg, s, s', cpu, s.ready); } else { Idle(cfg, s, s', cpu); }
        case AddSeed(seed) => Add(cfg, s, s', cpu, seed);
        case Claim => if s.next < cfg.tasks { HandOut(cfg, s, s', cpu, s.next); } else { Idle(cfg, s, s', cpu); }
        case AddTask(task) => Add(cfg, s, s', cpu, task);
        case Done(_) =>
        case Wait => if Open(cfg, s) { Idle(cfg, s, s', cpu); }
        case CountIn(_) => Idle(cfg, s, s', cpu);
        case LoadMax(_, _) => Idle(cfg, s, s', cpu);
        case RaiseMax(_, _, _) => Idle(cfg, s, s', cpu);
        case OpenGate(_) => Idle(cfg, s, s', cpu);
        case CountOut => Idle(cfg, s, s', cpu);
      }
    }
  }

  lemma PlaceMonotone(cfg: Config, s: State, s': State, pc: Pc)
    requires PlaceInv(cfg, s, pc) && s.ready <= s'.ready && s.next <= s'.next
    ensures PlaceInv(cfg, s', pc)
  {
  }

  // A step moves one CPU and never lowers a counter.
  lemma StepShape(cfg: Config, s: State, cpu: int, spurious: bool)
    requires cpu in s.pcs
    ensures var s' := Step(cfg, s, cpu, spurious);
      cpu in s'.pcs && s'.pcs == s.pcs[cpu := s'.pcs[cpu]] && s.ready <= s'.ready && s.next <= s'.next
  {
  }

  lemma NewPlace(cfg: Config, s: State, cpu: int, spurious: bool)
    requires Usable(cfg) && PhaseInv(cfg, s) && cpu in s.pcs
    ensures var s' := Step(cfg, s, cpu, spurious);
      cpu in s'.pcs && PlaceInv(cfg, s', s'.pcs[cpu])
  {
    assert PlaceInv(cfg, s, s.pcs[cpu]);
  }

  lemma CountersStep(cfg: Config, s: State, cpu: int, spurious: bool)
    requires Usable(cfg) && PhaseInv(cfg, s) && cpu in s.pcs
    ensures var s' := Step(cfg, s, cpu, spurious);
      s'.next >= cfg.workers && (s'.next > cfg.workers || s'.gate ==> s'.ready >= cfg.workers)
  {
    assert PlaceInv(cfg, s, s.pcs[cpu]);
  }

  lemma PhaseStep(cfg: Config, s: State, cpu: int, spurious: bool)
    requires Usable(cfg) && PhaseInv(cfg, s)
    ensures PhaseInv(cfg, Step(cfg, s, cpu, spurious))
  {
    if cpu in s.pcs {
      hide Step, PlaceInv;
      StepShape(cfg, s, cpu, spurious);
      NewPlace(cfg, s, cpu, spurious);
      CountersStep(cfg, s, cpu, spurious);
      var s' := Step(cfg, s, cpu, spurious);
      forall c | c in s'.pcs
        ensures PlaceInv(cfg, s', s'.pcs[c])
      {
        if c != cpu { PlaceMonotone(cfg, s, s', s.pcs[c]); }
      }
    }
  }

  lemma WorkerStep(cfg: Config, s: State, cpu: int, spurious: bool)
    requires Usable(cfg) && WorkerInv(s)
    ensures WorkerInv(Step(cfg, s, cpu, spurious))
  {
    var s' := Step(cfg, s, cpu, spurious);
    if cpu in s.pcs {
      if s.ready == 0 {
        if s.pcs[cpu].Arrive? { assert s'.pcs[cpu] == AddSeed(0); }
      } else {
        var c :| c in s.pcs && !s.pcs[c].Arrive? && s.pcs[c] != Done(false);
        assert c in s'.pcs && !s'.pcs[c].Arrive? && s'.pcs[c] != Done(false);
      }
    }
  }

  lemma MaxStep(cfg: Config, s: State, cpu: int, spurious: bool)
    requires MaxInv(s)
    ensures MaxInv(Step(cfg, s, cpu, spurious))
  {
  }

  lemma ActiveMoves(s: State, s': State, cpu: int)
    requires cpu in s.pcs && cpu in s'.pcs && s'.pcs == s.pcs[cpu := s'.pcs[cpu]]
    ensures |ActiveCpus(s')| == |ActiveCpus(s)|
      + (if Active(s'.pcs[cpu]) then 1 else 0) - (if Active(s.pcs[cpu]) then 1 else 0)
    ensures |ActiveCpus(s)| <= |s.pcs| == |s'.pcs|
    ensures !Active(s.pcs[cpu]) ==> |ActiveCpus(s)| < |s.pcs|
  {
    hide Active;
    var a := set c | c in s.pcs && c != cpu && Active(s.pcs[c]);
    Others(s, cpu, a);
    assert a == set c | c in s'.pcs && c != cpu && Active(s'.pcs[c]);
    Others(s', cpu, a);
    assert a + {cpu} <= s.pcs.Keys && s'.pcs.Keys == s.pcs.Keys;
    Fewer(a + {cpu}, s.pcs.Keys);
  }

  lemma Others(s: State, cpu: int, a: set<int>)
    requires cpu in s.pcs && a == set c | c in s.pcs && c != cpu && Active(s.pcs[c])
    ensures |ActiveCpus(s)| == |a| + if Active(s.pcs[cpu]) then 1 else 0
  {
    hide Active;
    assert ActiveCpus(s) == if Active(s.pcs[cpu]) then a + {cpu} else a;
  }

  lemma {:induction false} Fewer(a: set<int>, b: set<int>)
    requires a <= b
    ensures |a| <= |b|
  {
    assert b == a + (b - a) && a !! b - a;
  }

  lemma ActiveStep(cfg: Config, s: State, cpu: int, spurious: bool)
    requires ActiveInv(cfg, s)
    ensures ActiveInv(cfg, Step(cfg, s, cpu, spurious))
  {
    if cpu in s.pcs {
      StepShape(cfg, s, cpu, spurious);
      ActiveMoves(s, Step(cfg, s, cpu, spurious), cpu);
    }
    hide ActiveCpus;
  }

  lemma StepKeeps(cfg: Config, s: State, cpu: int, spurious: bool)
    requires Usable(cfg) && Inv(cfg, s)
    ensures Inv(cfg, Step(cfg, s, cpu, spurious)) && Step(cfg, s, cpu, spurious).pcs.Keys == s.pcs.Keys
  {
    ActiveStep(cfg, s, cpu, spurious);
    if cpu in s.pcs { StepShape(cfg, s, cpu, spurious); }
    hide TasksInv, PhaseInv, WorkerInv, MaxInv, ActiveInv, Step;
    TasksStep(cfg, s, cpu, spurious);
    PhaseStep(cfg, s, cpu, spurious);
    WorkerStep(cfg, s, cpu, spurious);
    MaxStep(cfg, s, cpu, spurious);
  }

  lemma {:induction false} EveryInterleavingKeeps(cfg: Config, s: State, schedule: seq<(int, bool)>)
    requires Usable(cfg) && Inv(cfg, s)
    ensures Inv(cfg, Run(cfg, s, schedule)) && Run(cfg, s, schedule).pcs.Keys == s.pcs.Keys
    decreases |schedule|
  {
    hide Inv, Step;
    if schedule != [] {
      StepKeeps(cfg, s, schedule[0].0, schedule[0].1);
      EveryInterleavingKeeps(cfg, Step(cfg, s, schedule[0].0, schedule[0].1), schedule[1..]);
    }
  }

  // ---------------------------------------------------------------------
  // What the run delivers

  /** No task is claimed from the shared counter before every seed has been taken. */
  lemma SharedAfterSeeds(cfg: Config, cpus: set<int>, schedule: seq<(int, bool)>)
    requires Usable(cfg)
    ensures var s := Run(cfg, Init(cfg, cpus), schedule);
      s.next > cfg.workers ==> s.ready >= cfg.workers && forall t: nat :: t < cfg.workers ==> t in s.log || Held(s, t)
  {
    InitInv(cfg, cpus);
    EveryInterleavingKeeps(cfg, Init(cfg, cpus), schedule);
    var s := Run(cfg, Init(cfg, cpus), schedule);
    hide Run;
    assert forall t: nat :: t < cfg.workers && s.ready >= cfg.workers ==> Issued(cfg, s, t);
  }

  /** At every point each task has been added at most once, and never while a CPU holds it. */
  lemma AddedOnce(cfg: Config, cpus: set<int>, schedule: seq<(int, bool)>)
    requires Usable(cfg)
    ensures var s := Run(cfg, Init(cfg, cpus), schedule);
      && NoDup(s.log) && (forall t :: t in s.log ==> t < cfg.tasks)
      && s.sum == Sum(s.log)
      && forall t: nat :: Held(s, t) ==> t !in s.log && t < cfg.tasks
  {
    InitInv(cfg, cpus);
    EveryInterleavingKeeps(cfg, Init(cfg, cpus), schedule);
    var s := Run(cfg, Init(cfg, cpus), schedule);
    hide Run;
    forall t: nat | t in s.log || Held(s, t)
      ensures t < cfg.tasks
    {
      assert Issued(cfg, s, t);
    }
  }

  /** The running maximum is the greatest candidate whose `observe_max` has returned,
      and never more than the number of CPUs. */
  lemma MaximumIsExact(cfg: Config, cpus: set<int>, schedule: seq<(int, bool)>)
    requires Usable(cfg) && cfg.gated
    ensures var s := Run(cfg, Init(cfg, cpus), schedule);
      && (forall x :: x in s.completed ==> 1 <= x <= s.max)
      && (if s.completed == {} then s.max == 0 else s.max in s.completed)
      && s.max <= |cpus|
  {
    InitInv(cfg, cpus);
    EveryInterleavingKeeps(cfg, Init(cfg, cpus), schedule);
    var s := Run(cfg, Init(cfg, cpus), schedule);
    hide Run, TasksInv, PhaseInv, WorkerInv;
    assert s.pcs.Keys == cpus && |s.pcs| == |cpus|;
    assert (forall x :: x !in s.completed) ==> s.completed == {};
  }

  /** The candidate a CPU brings to the maximum is the number of CPUs active once it has
      counted itself in. */
  lemma CandidateIsCount(cfg: Config, s: State, cpu: int, spurious: bool)
    requires Usable(cfg) && Inv(cfg, s) && cfg.gated && cpu in s.pcs && s.pcs[cpu].CountIn?
    ensures var s' := Step(cfg, s, cpu, spurious);
      s'.pcs[cpu] == LoadMax(s.pcs[cpu].seed, |ActiveCpus(s')|)
  {
    StepKeeps(cfg, s, cpu, spurious);
    hide TasksInv, PhaseInv, WorkerInv, MaxInv, ActiveCpus;
  }

  function Triangle(n: nat): nat {
    n * (n - 1) / 2
  }

  lemma TriangleStep(n: nat)
    ensures Triangle(n + 1) == Triangle(n) + n
  {
    assert (n + 1) * n == n * (n - 1) + 2 * n;
  }

  lemma {:induction false} SumRemove(log: seq<nat>, i: nat)
    requires i < |log|
    ensures Sum(log) == Sum(log[..i] + log[i + 1..]) + log[i]
  {
    var n := |log| - 1;
    if i == n {
      assert log[..i] + log[i + 1..] == log[..n];
    } else {
      SumRemove(log[..n], i);
      var rest := log[..i] + log[i + 1..];
      assert rest[..|rest| - 1] == log[..n][..i] + log[..n][i + 1..];
    }
  }

  // A list holding each number below n once adds up to n (n - 1) / 2.
  lemma {:induction false} SumOfAll(log: seq<nat>, n: nat)
    requires NoDup(log) && forall t: nat :: t in log <==> t < n
    ensures Sum(log) == Triangle(n)
    decreases n
  {
    assert forall i :: 0 <= i < |log| ==> log[i] in log;
    if n > 0 {
      assert n - 1 in log;
      var i :| 0 <= i < |log| && log[i] == n - 1;
      var rest := log[..i] + log[i + 1..];
      SumRemove(log, i);
      TriangleStep(n - 1);
      assert NoDup(rest) && forall t: nat :: t in rest <==> t < n - 1 by { RemoveOne(log, i, n); }
      SumOfAll(rest, n - 1);
    }
  }

  lemma RemoveOne(log: seq<nat>, i: nat, n: nat)
    requires NoDup(log) && i < |log| && log[i] == n - 1 && forall t: nat :: t in log <==> t < n
    ensures var rest := log[..i] + log[i + 1..];
      NoDup(rest) && forall t: nat :: t in rest <==> t < n - 1
  {
    var rest := log[..i] + log[i + 1..];
    assert forall j :: 0 <= j < |rest| ==> rest[j] == log[if j < i then j else j + 1];
    forall t: nat
      ensures t in rest <==> t < n - 1
    {
      if t in rest {
        var j :| 0 <= j < |rest| && rest[j] == t;
        assert t in log;
      }
      if t < n - 1 {
        assert t in log;
        var j :| 0 <= j < |log| && log[j] == t;
        assert rest[if j < i then j else j - 1] == t;
      }
    }
  }

  lemma NobodyActive(s: State)
    requires forall c :: c in s.pcs ==> s.pcs[c].Done?
    ensures ActiveCpus(s) == {}
  {
    forall c
      ensures c !in ActiveCpus(s)
    {
      if c in s.pcs { assert s.pcs[c].Done?; }
    }
  }

  /** When every CPU has returned, each task below the bound was added exactly once, and
      nobody is counted as active. */
  lemma FinalSum(cfg: Config, cpus: set<int>, schedule: seq<(int, bool)>)
    requires Usable(cfg) && cpus != {}
    requires var s := Run(cfg, Init(cfg, cpus), schedule); forall c :: c in s.pcs ==> s.pcs[c].Done?
    ensures var s := Run(cfg, Init(cfg, cpus), schedule);
      && NoDup(s.log) && (forall t: nat :: t in s.log <==> t < cfg.tasks)
      && s.sum == Triangle(cfg.tasks) && (cfg.gated ==> s.active == 0)
  {
    InitInv(cfg, cpus);
    EveryInterleavingKeeps(cfg, Init(cfg, cpus), schedule);
    var s := Run(cfg, Init(cfg, cpus), schedule);
    assert s.pcs.Keys == cpus;
    hide Run, Init, Triangle, Sum, NoDup;
    NobodyActive(s);
    assert (forall x :: x !in cpus) ==> cpus == {};
    var c :| c in cpus;
    assert c in s.pcs && !s.pcs[c].Arrive? && s.ready > 0;
    var w :| w in s.pcs && !s.pcs[w].Arrive? && s.pcs[w] != Done(false);
    assert PlaceInv(cfg, s, s.pcs[w]);
    forall t: nat
      ensures t in s.log <==> t < cfg.tasks
    {
      assert Issued(cfg, s, t) <==> t < cfg.tasks;
      assert !Held(s, t);
    }
    SumOfAll(s.log, cfg.tasks);
  }

  // With one processor the boot code adds the tasks in a loop; the result is the same.
  method SumAlone(tasks: nat) returns (sum: nat)
    ensures sum == Triangle(tasks)
  {
    sum := 0;
    for task := 0 to tasks
      invariant sum == Triangle(task)
    {
      TriangleStep(task);
      sum := sum + task;
    }
  }
}

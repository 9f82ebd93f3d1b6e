/** The rendezvous lets everybody through: the gate opens, some CPU can always move, and
    exactly when the right number of CPUs takes part every run can be finished. */
module WorkQueueProgress {
  import opened WorkQueue

  // A CPU between taking the last seed and opening the gate.
  predicate Opening(cfg: Config, pc: Pc) {
    && (pc.AddSeed? || pc.CountIn? || pc.LoadMax? || pc.RaiseMax? || pc.OpenGate?)
    && pc.seed + 1 == cfg.workers
  }

  // Once everybody has arrived the gate is open, or somebody is on the way to open it.
  ghost predicate GateInv(cfg: Config, s: State) {
    cfg.gated && s.ready >= cfg.workers ==> s.gate || exists c :: c in s.pcs && Opening(cfg, s.pcs[c])
  }

  ghost function Arrived(s: State): set<int> {
    set c | c in s.pcs && !s.pcs[c].Arrive?
  }

  ghost predicate Reached(cfg: Config, s: State) {
    Inv(cfg, s) && GateInv(cfg, s) && s.ready == |Arrived(s)|
  }

  lemma Everybody(s: State)
    requires forall c :: c in s.pcs ==> !s.pcs[c].Arrive?
    ensures Arrived(s) == s.pcs.Keys && |Arrived(s)| == |s.pcs|
  {
    forall c
      ensures c in Arrived(s) <==> c in s.pcs.Keys
    {
      if c in s.pcs { assert !s.pcs[c].Arrive?; }
    }
    assert |s.pcs| == |s.pcs.Keys|;
  }

  lemma InitReached(cfg: Config, cpus: set<int>)
    requires Usable(cfg)
    ensures Reached(cfg, Init(cfg, cpus)) && Init(cfg, cpus).pcs.Keys == cpus
  {
    InitInv(cfg, cpus);
    assert Arrived(Init(cfg, cpus)) == {};
  }

  lemma OpenerMoves(cfg: Config, s: State, cpu: int, spurious: bool)
    requires cfg.gated && cpu in s.pcs && Opening(cfg, s.pcs[cpu])
    ensures var s' := Step(cfg, s, cpu, spurious); s'.gate || Opening(cfg, s'.pcs[cpu])
  {
  }

  lemma LastArrivalOpens(cfg: Config, s: State, cpu: int, spurious: bool)
    requires Usable(cfg) && cpu in s.pcs && s.ready < cfg.workers <= Step(cfg, s, cpu, spurious).ready
    ensures Opening(cfg, Step(cfg, s, cpu, spurious).pcs[cpu])
  {
  }

  lemma GateStays(cfg: Config, s: State, cpu: int, spurious: bool)
    requires s.gate
    ensures Step(cfg, s, cpu, spurious).gate
  {
  }

  lemma GateStep(cfg: Config, s: State, cpu: int, spurious: bool)
    requires Usable(cfg) && GateInv(cfg, s) && cpu in s.pcs
    ensures GateInv(cfg, Step(cfg, s, cpu, spurious))
  {
    hide Opening;
    var s' := Step(cfg, s, cpu, spurious);
    StepShape(cfg, s, cpu, spurious);
    if cfg.gated && s'.ready >= cfg.workers {
      if s.gate { GateStays(cfg, s, cpu, spurious); }
      if s.ready < cfg.workers { LastArrivalOpens(cfg, s, cpu, spurious); }
      hide Step;
      if !s.gate && s.ready >= cfg.workers {
        var c :| c in s.pcs && Opening(cfg, s.pcs[c]);
        if c == cpu { OpenerMoves(cfg, s, cpu, spurious); } else { assert s'.pcs[c] == s.pcs[c]; }
      }
    }
  }

  lemma ArrivalCounts(cfg: Config, s: State, cpu: int, spurious: bool)
    requires cpu in s.pcs
    ensures var s' := Step(cfg, s, cpu, spurious);
      && cpu in s'.pcs && s'.pcs == s.pcs[cpu := s'.pcs[cpu]] && !s'.pcs[cpu].Arrive?
      && s'.ready == s.ready + if s.pcs[cpu].Arrive? then 1 else 0
  {
  }

  lemma ArrivedMoves(s: State, s': State, cpu: int)
    requires cpu in s.pcs && cpu in s'.pcs && s'.pcs == s.pcs[cpu := s'.pcs[cpu]] && !s'.pcs[cpu].Arrive?
    ensures |Arrived(s')| == |Arrived(s)| + if s.pcs[cpu].Arrive? then 1 else 0
  {
    assert Arrived(s') == Arrived(s) + {cpu};
    if s.pcs[cpu].Arrive? {
      assert cpu !in Arrived(s);
    } else {
      assert Arrived(s) + {cpu} == Arrived(s);
    }
  }

  lemma ArrivedStep(cfg: Config, s: State, cpu: int, spurious: bool)
    requires cpu in s.pcs && s.ready == |Arrived(s)|
    ensures var s' := Step(cfg, s, cpu, spurious); s'.ready == |Arrived(s')|
  {
    hide Step, Arrived;
    ArrivalCounts(cfg, s, cpu, spurious);
    ArrivedMoves(s, Step(cfg, s, cpu, spurious), cpu);
  }

  lemma StepReaches(cfg: Config, s: State, cpu: int, spurious: bool)
    requires Usable(cfg) && Reached(cfg, s)
    ensures Reached(cfg, Step(cfg, s, cpu, spurious)) && Step(cfg, s, cpu, spurious).pcs.Keys == s.pcs.Keys
  {
    StepKeeps(cfg, s, cpu, spurious);
    if cpu in s.pcs {
      hide Inv, GateInv, Step, Arrived;
      GateStep(cfg, s, cpu, spurious);
      ArrivedStep(cfg, s, cpu, spurious);
    }
  }

  lemma {:induction false} EveryRunReaches(cfg: Config, s: State, schedule: seq<(int, bool)>)
    requires Usable(cfg) && Reached(cfg, s)
    ensures Reached(cfg, Run(cfg, s, schedule)) && Run(cfg, s, schedule).pcs.Keys == s.pcs.Keys
    decreases |schedule|
  {
    hide Reached, Step;
    if schedule != [] {
      StepReaches(cfg, s, schedule[0].0, schedule[0].1);
      EveryRunReaches(cfg, Step(cfg, s, schedule[0].0, schedule[0].1), schedule[1..]);
    }
  }

  /** In every run: once all workers have arrived and none of them is before its gate access,
      the gate is open. */
  lemma GateOpens(cfg: Config, cpus: set<int>, schedule: seq<(int, bool)>)
    requires Usable(cfg) && cfg.gated
    ensures var s := Run(cfg, Init(cfg, cpus), schedule);
      s.ready >= cfg.workers
      && (forall c :: c in s.pcs ==> s.pcs[c].Arrive? || s.pcs[c].Wait? || s.pcs[c].Claim? || s.pcs[c].AddTask?
                                     || s.pcs[c].CountOut? || s.pcs[c].Done?)
      ==> s.gate
  {
    InitReached(cfg, cpus);
    hide Run, Inv;
    EveryRunReaches(cfg, Init(cfg, cpus), schedule);
  }

  // ---------------------------------------------------------------------
  // Some CPU can move

  // How many CPUs the rendezvous needs: the gate tolerates more, the counter does not.
  predicate Enough(cfg: Config, cpus: nat) {
    if cfg.gated then cpus >= cfg.workers else cpus == cfg.workers
  }

  ghost predicate AllDone(s: State) {
    forall c :: c in s.pcs ==> s.pcs[c].Done?
  }

  predicate Ready(cfg: Config, s: State, pc: Pc) {
    !pc.Done? && (pc.Wait? ==> Open(cfg, s))
  }

  // When everybody who is not through waits, the rendezvous is open.
  lemma WaitersPass(cfg: Config, s: State)
    requires Reached(cfg, s) && Enough(cfg, |s.pcs|)
    requires forall d :: d in s.pcs ==> s.pcs[d].Done? || s.pcs[d].Wait?
    ensures Open(cfg, s)
  {
    assert forall d :: d in s.pcs ==> !Opening(cfg, s.pcs[d]);
    Everybody(s);
    hide Inv, Opening, Arrived;
  }

  lemma SomebodyReady(cfg: Config, s: State) returns (c: int)
    requires Reached(cfg, s) && Enough(cfg, |s.pcs|) && !AllDone(s)
    ensures c in s.pcs && Ready(cfg, s, s.pcs[c])
  {
    hide Reached, Enough;
    c :| c in s.pcs && !s.pcs[c].Done?;
    if !Open(cfg, s) {
      if forall d :: d in s.pcs ==> s.pcs[d].Done? || s.pcs[d].Wait? { WaitersPass(cfg, s); }
      c :| c in s.pcs && !s.pcs[c].Done? && !s.pcs[c].Wait?;
    }
  }

  lemma ReadyMoves(cfg: Config, s: State, c: int)
    requires c in s.pcs && Ready(cfg, s, s.pcs[c])
    ensures Step(cfg, s, c, false) != s
  {
    var pc, pc' := s.pcs[c], Step(cfg, s, c, false).pcs[c];
    assert pc' != pc;
  }

  /** In every run with enough CPUs, while some CPU has not returned some CPU has a step
      that changes the state. */
  lemma NoDeadlock(cfg: Config, cpus: set<int>, schedule: seq<(int, bool)>) returns (c: int)
    requires Usable(cfg) && Enough(cfg, |cpus|) && !AllDone(Run(cfg, Init(cfg, cpus), schedule))
    ensures var s := Run(cfg, Init(cfg, cpus), schedule); Step(cfg, s, c, false) != s
  {
    InitReached(cfg, cpus);
    hide Run, Reached, Step;
    EveryRunReaches(cfg, Init(cfg, cpus), schedule);
    var s := Run(cfg, Init(cfg, cpus), schedule);
    assert |s.pcs| == |s.pcs.Keys|;
    c := SomebodyReady(cfg, s);
    ReadyMoves(cfg, s, c);
  }

  // ---------------------------------------------------------------------
  // Every run can be finished

  // Accesses before a CPU has returned, not counting tasks still to be claimed.
  function Weight(pc: Pc): nat {
    match pc
    case Arrive => 12
    case AddSeed(_) => 11
    case CountIn(_) => 10
    case LoadMax(_, _) => 9
    case RaiseMax(_, _, _) => 8
    case OpenGate(_) => 7
    case Wait => 6
    case Claim => 5
    case AddTask(_) => 6
    case CountOut => 1
    case Done(_) => 0
  }

  ghost function Total(pcs: map<int, Pc>): nat
    decreases |pcs|
  {
    if pcs == map[] then 0
    else
      assert (forall x :: x !in pcs) ==> pcs == map[];
      var c :| c in pcs;
      Smaller(pcs, c);
      Weight(pcs[c]) + Total(pcs - {c})
  }

  lemma Smaller(pcs: map<int, Pc>, c: int)
    requires c in pcs
    ensures |pcs - {c}| < |pcs|
  {
    assert (pcs - {c}).Keys == pcs.Keys - {c};
    assert |pcs| == |pcs.Keys| && |pcs - {c}| == |(pcs - {c}).Keys|;
  }

  lemma {:induction false} TotalOf(pcs: map<int, Pc>, c: int)
    requires c in pcs
    ensures Total(pcs) == Weight(pcs[c]) + Total(pcs - {c})
    decreases |pcs|
  {
    hide Weight;
    var d :| d in pcs && Total(pcs) == Weight(pcs[d]) + Total(pcs - {d});
    if c != d {
      Smaller(pcs, c);
      Smaller(pcs, d);
      TotalOf(pcs - {d}, c);
      TotalOf(pcs - {c}, d);
      assert pcs - {d} - {c} == pcs - {c} - {d};
    }
  }

  lemma TotalMoves(pcs: map<int, Pc>, c: int, pc: Pc)
    requires c in pcs
    ensures Total(pcs[c := pc]) == Total(pcs) - Weight(pcs[c]) + Weight(pc)
  {
    hide Weight, Total;
    TotalOf(pcs, c);
    TotalOf(pcs[c := pc], c);
    assert pcs[c := pc] - {c} == pcs - {c};
  }

  ghost function Remaining(cfg: Config, s: State): nat {
    Total(s.pcs) + if s.next < cfg.tasks then 2 * (cfg.tasks - s.next) else 0
  }

  // One access brings a CPU nearer to its return, but for a stale maximum read again.
  lemma StepCounts(cfg: Config, s: State, c: int)
    requires c in s.pcs && Ready(cfg, s, s.pcs[c])
    ensures var s' := Step(cfg, s, c, false);
      || Remaining(cfg, s') < Remaining(cfg, s)
      || (&& s.pcs[c].RaiseMax? && s'.pcs[c] == s.pcs[c].(observed := s'.max)
          && s'.max == s.max && Remaining(cfg, s') == Remaining(cfg, s))
  {
    var s' := Step(cfg, s, c, false);
    StepShape(cfg, s, c, false);
    TotalMoves(s.pcs, c, s'.pcs[c]);
    hide Total;
  }

  lemma RereadCounts(cfg: Config, s: State, c: int)
    requires c in s.pcs && s.pcs[c].RaiseMax? && s.pcs[c].observed == s.max
    ensures Remaining(cfg, Step(cfg, s, c, false)) < Remaining(cfg, s)
  {
    TotalMoves(s.pcs, c, Step(cfg, s, c, false).pcs[c]);
    hide Total;
  }

  lemma TwoAccesses(cfg: Config, s: State, c: int)
    ensures Run(cfg, s, [(c, false)]) == Step(cfg, s, c, false)
    ensures Run(cfg, s, [(c, false), (c, false)]) == Step(cfg, Step(cfg, s, c, false), c, false)
  {
    hide Step;
    var two := [(c, false), (c, false)];
    assert two[1..] == [(c, false)] && two[1..][1..] == [] && [(c, false)][1..] == [];
    assert Run(cfg, s, two) == Run(cfg, Step(cfg, s, c, false), two[1..]);
  }

  lemma Advance(cfg: Config, s: State) returns (schedule: seq<(int, bool)>)
    requires Reached(cfg, s) && Enough(cfg, |s.pcs|) && !AllDone(s)
    ensures Remaining(cfg, Run(cfg, s, schedule)) < Remaining(cfg, s)
  {
    var c := SomebodyReady(cfg, s);
    var s' := Step(cfg, s, c, false);
    StepCounts(cfg, s, c);
    TwoAccesses(cfg, s, c);
    if Remaining(cfg, s') < Remaining(cfg, s) {
      schedule := [(c, false)];
    } else {
      assert c in s'.pcs;
      RereadCounts(cfg, s', c);
      schedule := [(c, false), (c, false)];
    }
    hide Run, Remaining, Step;
  }

  lemma {:induction false} RunConcat(cfg: Config, s: State, first: seq<(int, bool)>, second: seq<(int, bool)>)
    ensures Run(cfg, s, first + second) == Run(cfg, Run(cfg, s, first), second)
    decreases |first|
  {
    hide Step;
    if first == [] {
      assert first + second == second;
    } else {
      RunConcat(cfg, Step(cfg, s, first[0].0, first[0].1), first[1..], second);
      assert (first + second)[0] == first[0] && (first + second)[1..] == first[1..] + second;
    }
  }

  lemma {:induction false} Finish(cfg: Config, s: State) returns (schedule: seq<(int, bool)>)
    requires Usable(cfg) && Reached(cfg, s) && Enough(cfg, |s.pcs|)
    ensures AllDone(Run(cfg, s, schedule))
    decreases Remaining(cfg, s)
  {
    if AllDone(s) {
      schedule := [];
    } else {
      hide Reached, Run, AllDone, Remaining;
      var first := Advance(cfg, s);
      EveryRunReaches(cfg, s, first);
      var t := Run(cfg, s, first);
      assert |t.pcs| == |t.pcs.Keys| && |s.pcs| == |s.pcs.Keys|;
      var second := Finish(cfg, t);
      RunConcat(cfg, s, first, second);
      schedule := first + second;
    }
  }

  // ---------------------------------------------------------------------
  // With the wrong number of CPUs

  ghost predicate CanFinish(cfg: Config, s: State) {
    exists more :: AllDone(Run(cfg, s, more))
  }

  // Too few: nobody ever returns.
  lemma TooFew(cfg: Config, s: State)
    requires Reached(cfg, s) && s.pcs != map[] && AllDone(s)
    ensures |s.pcs| >= cfg.workers
  {
    assert (forall x :: x !in s.pcs) ==> s.pcs == map[];
    var c :| c in s.pcs;
    assert s.ready > 0;
    var w :| w in s.pcs && !s.pcs[w].Arrive? && s.pcs[w] != Done(false);
    assert PlaceInv(cfg, s, s.pcs[w]);
    Everybody(s);
  }

  // One more than expected has announced itself at the counter while a worker waits.
  ghost predicate Stuck(cfg: Config, s: State) {
    !cfg.gated && s.ready > cfg.workers && exists c :: c in s.pcs && (s.pcs[c].AddSeed? || s.pcs[c].Wait?)
  }

  lemma StuckStep(cfg: Config, s: State, cpu: int, spurious: bool)
    requires Stuck(cfg, s)
    ensures Stuck(cfg, Step(cfg, s, cpu, spurious))
  {
    var c :| c in s.pcs && (s.pcs[c].AddSeed? || s.pcs[c].Wait?);
    var s' := Step(cfg, s, cpu, spurious);
    if cpu in s.pcs { StepShape(cfg, s, cpu, spurious); }
    assert c in s'.pcs && (s'.pcs[c].AddSeed? || s'.pcs[c].Wait?);
  }

  lemma {:induction false} StuckForEver(cfg: Config, s: State, schedule: seq<(int, bool)>)
    requires Stuck(cfg, s)
    ensures !AllDone(Run(cfg, s, schedule))
    decreases |schedule|
  {
    if schedule != [] {
      hide Step, Stuck, AllDone;
      StuckStep(cfg, s, schedule[0].0, schedule[0].1);
      StuckForEver(cfg, Step(cfg, s, schedule[0].0, schedule[0].1), schedule[1..]);
    }
  }

  predicate JustArrived(pc: Pc) {
    pc.Arrive? || pc.AddSeed? || pc == Done(false)
  }

  // Let every CPU announce itself before any goes on.
  lemma {:induction false} ArriveAll(cfg: Config, s: State) returns (schedule: seq<(int, bool)>)
    requires Usable(cfg) && Reached(cfg, s) && forall c :: c in s.pcs ==> JustArrived(s.pcs[c])
    ensures var t := Run(cfg, s, schedule);
      && Reached(cfg, t) && t.pcs.Keys == s.pcs.Keys
      && forall c :: c in t.pcs ==> JustArrived(t.pcs[c]) && !t.pcs[c].Arrive?
    decreases |s.pcs.Keys - Arrived(s)|
  {
    var waiting := s.pcs.Keys - Arrived(s);
    if waiting == {} {
      schedule := [];
      assert forall c :: c in s.pcs ==> c !in waiting;
    } else {
      assert (forall x :: x !in waiting) ==> waiting == {};
      var c :| c in waiting;
      var t := Step(cfg, s, c, false);
      StepReaches(cfg, s, c, false);
      assert t.pcs.Keys - Arrived(t) == waiting - {c};
      hide Reached, Step;
      var rest := ArriveAll(cfg, t);
      schedule := [(c, false)] + rest;
      assert schedule[1..] == rest;
    }
  }

  lemma TooMany(cfg: Config, cpus: set<int>) returns (schedule: seq<(int, bool)>)
    requires Usable(cfg) && !cfg.gated && |cpus| > cfg.workers
    ensures !CanFinish(cfg, Run(cfg, Init(cfg, cpus), schedule))
  {
    var s := Init(cfg, cpus);
    InitReached(cfg, cpus);
    assert forall c :: c in s.pcs ==> JustArrived(s.pcs[c]);
    schedule := ArriveAll(cfg, s);
    var t := Run(cfg, s, schedule);
    hide Run, Init;
    Everybody(t);
    assert t.pcs.Keys == cpus && |t.pcs| == |t.pcs.Keys|;
    assert (forall x :: x !in cpus) ==> cpus == {};
    var c :| c in cpus;
    assert c in t.pcs && !t.pcs[c].Arrive? && t.ready > 0;
    var w :| w in t.pcs && !t.pcs[w].Arrive? && t.pcs[w] != Done(false);
    assert t.pcs[w].AddSeed?;
    forall more
      ensures !AllDone(Run(cfg, t, more))
    {
      StuckForEver(cfg, t, more);
    }
  }

  lemma EnoughFinishes(cfg: Config, cpus: set<int>, schedule: seq<(int, bool)>)
    requires Usable(cfg) && Enough(cfg, |cpus|)
    ensures CanFinish(cfg, Run(cfg, Init(cfg, cpus), schedule))
  {
    InitReached(cfg, cpus);
    hide Run, Reached, Init, AllDone;
    EveryRunReaches(cfg, Init(cfg, cpus), schedule);
    var s := Run(cfg, Init(cfg, cpus), schedule);
    assert |s.pcs| == |s.pcs.Keys|;
    var more := Finish(cfg, s);
  }

  lemma FinishedWasEnough(cfg: Config, cpus: set<int>)
    requires Usable(cfg) && cpus != {} && CanFinish(cfg, Init(cfg, cpus))
    ensures |cpus| >= cfg.workers
  {
    InitReached(cfg, cpus);
    hide Run, Reached, Init, AllDone;
    var more :| AllDone(Run(cfg, Init(cfg, cpus), more));
    EveryRunReaches(cfg, Init(cfg, cpus), more);
    var s := Run(cfg, Init(cfg, cpus), more);
    assert s.pcs.Keys == cpus && |s.pcs| == |s.pcs.Keys|;
    TooFew(cfg, s);
  }

  /** Every run, wherever it stands, can be continued until every CPU has returned, if and only
      if the right number of CPUs takes part: at least the expected number behind the gate,
      exactly that number at the bare counter. */
  lemma FinishesExactly(cfg: Config, cpus: set<int>)
    requires Usable(cfg) && cpus != {}
    ensures (forall schedule :: CanFinish(cfg, Run(cfg, Init(cfg, cpus), schedule))) <==> Enough(cfg, |cpus|)
  {
    hide Run, Init, CanFinish;
    if Enough(cfg, |cpus|) {
      forall schedule
        ensures CanFinish(cfg, Run(cfg, Init(cfg, cpus), schedule))
      {
        EnoughFinishes(cfg, cpus, schedule);
      }
    } else if |cpus| < cfg.workers {
      RunNothing(cfg, Init(cfg, cpus));
      if CanFinish(cfg, Init(cfg, cpus)) { FinishedWasEnough(cfg, cpus); }
      assert !CanFinish(cfg, Run(cfg, Init(cfg, cpus), []));
    } else {
      var schedule := TooMany(cfg, cpus);
    }
  }

  lemma RunNothing(cfg: Config, s: State)
    ensures Run(cfg, s, []) == s
  {
  }

  /** One CPU too many at the bare counter: both announce themselves first, and the worker
      waits for ever. */
  lemma ExtraCpuBlocks(schedule: seq<(int, bool)>)
    requires schedule == [(0, false)] + [(1, false)]
    ensures var cfg := Config(1, 1, false); var s := Run(cfg, Init(cfg, {0, 1}), schedule);
      s.ready == 2 && 0 in s.pcs && s.pcs[0] == AddSeed(0) && !CanFinish(cfg, s)
  {
    var cfg := Config(1, 1, false);
    var s0 := Init(cfg, {0, 1});
    var s1 := Step(cfg, s0, 0, false);
    var s2 := Step(cfg, s1, 1, false);
    assert schedule[1..] == [(1, false)] && schedule[1..][1..] == [];
    assert Run(cfg, s0, schedule) == Run(cfg, s1, schedule[1..]) == Run(cfg, s2, schedule[1..][1..]) == s2;
    assert s2.pcs[0] == AddSeed(0);
    forall more
      ensures !AllDone(Run(cfg, s2, more))
    {
      StuckForEver(cfg, s2, more);
    }
  }
}

/** What every scheduler operation keeps, over every sequence of operations. */
module SchedulerRuns {
  import opened Wrappers
  import opened Machine
  import opened Scheduling

  datatype Op =
    | CreateTask(task: int, cpu: int)
    | DispatchOn(cpu: int)
    | YieldCurrent(cpu: int)
    | BlockCurrent(cpu: int)
    | WakeTask(task: int, cpu: int)
    | ExitCurrent(cpu: int, code: int)

  // The new state and the error, if any.
  ghost function Apply(s: State, op: Op): (State, Option<Error>) {
    match op
    case CreateTask(t, c) => var r := Create(s, t, c); (r.0, if r.1.Err? then Some(r.1.error) else None)
    case DispatchOn(c) => var r := Dispatch(s, c); (r.0, if r.1.Err? then Some(r.1.error) else None)
    case YieldCurrent(c) => var r := Yield(s, c); (r.0, if r.1.Err? then Some(r.1.error) else None)
    case BlockCurrent(c) => var r := Leave(s, c, Blocked); (r.0, if r.1.Err? then Some(r.1.error) else None)
    case WakeTask(t, c) => var r := Wake(s, t, c); (r.0, if r.1.Err? then Some(r.1.error) else None)
    case ExitCurrent(c, code) => var r := Leave(s, c, Exited(code)); (r.0, if r.1.Err? then Some(r.1.error) else None)
  }

  ghost function Step(s: State, op: Op): State {
    Apply(s, op).0
  }

  // The one operation that loses a task: yielding with no generation left.
  predicate Overflows(s: State, op: Op) {
    && op.YieldCurrent? && op.cpu in s.current && s.current[op.cpu].Some?
    && s.current[op.cpu].value in s.tasks
    && s.tasks[s.current[op.cpu].value].state == Running(op.cpu)
    && s.tasks[s.current[op.cpu].value].generation + 1 >= U64_LIMIT
  }

  // ---------------------------------------------------------------------
  // Each operation keeps the placement

  // A task that becomes runnable goes to the back of a queue it is not in.
  lemma Enqueue(s: State, s': State, c: int, t: int)
    requires Inv(s) && c in s.queues && !Queued(s.queues, t)
    requires s'.queues == s.queues[c := s.queues[c] + [t]]
    requires s'.tasks.Keys == s.tasks.Keys + {t} && s'.tasks[t].state == Runnable
    requires forall x :: x in s.tasks && x != t ==> s'.tasks[x] == s.tasks[x]
    requires s'.current.Keys == s.current.Keys
    requires forall d :: d in s.current ==>
      s'.current[d] == if s.current[d] == Some(t) then None else s.current[d]
    ensures Inv(s')
  {
    hide Distinct;
    PushKeeps(s.queues, c, t);
    assert Queued(s'.queues, t);
    forall d, x | d in s'.queues && x in s'.queues[d]
      ensures x in s'.tasks && s'.tasks[x].state == Runnable
    {
      assert Queued(s'.queues, x);
      if x != t {
        assert Queued(s.queues, x);
        var e :| e in s.queues && x in s.queues[e];
      }
    }
    forall x | x in s'.tasks && s'.tasks[x].state == Runnable
      ensures Queued(s'.queues, x)
    {
      if x != t { assert Queued(s.queues, x); }
    }
    assert QueuesInv(s');
    assert s'.queues.Keys == s.queues.Keys;
    forall d | d in s'.current && s'.current[d].Some?
      ensures s'.current[d].value in s'.tasks && s'.tasks[s'.current[d].value].state == Running(d)
    {
      assert s.current[d] == s'.current[d] && s.current[d].value != t;
    }
    forall x | x in s'.tasks && s'.tasks[x].state.Running?
      ensures s'.tasks[x].state.cpu in s'.current && s'.current[s'.tasks[x].state.cpu] == Some(x)
    {
      assert x != t && s.tasks[x] == s'.tasks[x];
    }
  }

  lemma CreateKeeps(s: State, t: int, c: int)
    requires Inv(s)
    ensures Inv(Create(s, t, c).0)
  {
    var r := Create(s, t, c);
    if r.1.Ok? { Enqueue(s, r.0, c, t); }
  }

  lemma WakeKeeps(s: State, t: int, c: int)
    requires Inv(s)
    ensures Inv(Wake(s, t, c).0)
  {
    var r := Wake(s, t, c);
    if r.1.Ok? { Enqueue(s, r.0, c, t); }
  }

  lemma YieldKeeps(s: State, c: int)
    requires Inv(s) && !Overflows(s, YieldCurrent(c))
    ensures Inv(Yield(s, c).0)
  {
    var r := Yield(s, c);
    if r.1.Ok? { Enqueue(s, r.0, c, s.current[c].value); }
  }

  lemma LeaveKeeps(s: State, c: int, next: TaskState)
    requires Inv(s) && (next.Blocked? || next.Exited?)
    ensures Inv(Leave(s, c, next).0)
  {
    var r := Leave(s, c, next);
    if r.1.Ok? {
      assert forall x :: Queued(r.0.queues, x) <==> Queued(s.queues, x);
    }
  }

  lemma StartKeeps(s: State, s': State, c: int, from: int, t: int, rest: seq<int>)
    requires Inv(s) && c in s.current && s.current[c].None? && from in s.queues && s.queues[from] != []
    requires (t == s.queues[from][0] && rest == s.queues[from][1..])
      || (t == s.queues[from][|s.queues[from]| - 1] && rest == s.queues[from][..|s.queues[from]| - 1])
    requires s' == s.(queues := s.queues[from := rest], steals := s'.steals)
    ensures Inv(Start(s', c, t).0) && Start(s', c, t).1 == Ok(Some(t))
  {
    hide Distinct;
    assert t in s.queues[from];
    PopKeeps(s.queues, from, t, rest);
    var r := Start(s', c, t).0;
    forall d, x | d in r.queues && x in r.queues[d]
      ensures x in r.tasks && r.tasks[x].state == Runnable
    {
      assert Queued(s'.queues, x);
      assert Queued(s.queues, x) && x != t;
      var e :| e in s.queues && x in s.queues[e];
    }
    assert QueuesInv(r);
  }

  lemma DispatchKeeps(s: State, c: int)
    requires Inv(s)
    ensures Inv(Dispatch(s, c).0)
    ensures Dispatch(s, c).1.Err? ==> Dispatch(s, c).0 == s
  {
    hide Start, Inv;
    if c in s.current && s.current[c].None? && c in s.queues {
      if s.queues[c] != [] {
        var q := s.queues[c];
        StartKeeps(s, s.(queues := s.queues[c := q[1..]]), c, c, q[0], q[1..]);
      } else if Victim(s.queues, c).Some? {
        var v := Victim(s.queues, c).value;
        var q := s.queues[v];
        StartKeeps(s, s.(queues := s.queues[v := q[..|q| - 1]], steals := Saturate(s.steals + 1)),
          c, v, q[|q| - 1], q[..|q| - 1]);
      }
    }
  }

  lemma OverflowLoses(s: State, c: int)
    requires Inv(s) && Overflows(s, YieldCurrent(c))
    ensures !Inv(Yield(s, c).0) && Yield(s, c).1 == Err(GenerationOverflow)
  {
    var t := s.current[c].value;
    assert Yield(s, c).0.tasks[t].state == Running(c);
  }

  /** An operation keeps every task in exactly one place if and only if it is not a
      yield of a task whose generation is exhausted. */
  lemma KeepsPlacementExactly(s: State, op: Op)
    requires Inv(s)
    ensures Inv(Step(s, op)) <==> !Overflows(s, op)
  {
    hide Inv, Overflows, Create, Dispatch, Yield, Leave, Wake;
    match op {
      case CreateTask(t, c) => CreateKeeps(s, t, c); NotYield(s, op);
      case DispatchOn(c) => DispatchKeeps(s, c); NotYield(s, op);
      case YieldCurrent(c) =>
        if Overflows(s, op) { OverflowLoses(s, c); } else { YieldKeeps(s, c); }
      case BlockCurrent(c) => LeaveKeeps(s, c, Blocked); NotYield(s, op);
      case WakeTask(t, c) => WakeKeeps(s, t, c); NotYield(s, op);
      case ExitCurrent(c, code) => LeaveKeeps(s, c, Exited(code)); NotYield(s, op);
    }
  }

  lemma NotYield(s: State, op: Op)
    requires !op.YieldCurrent?
    ensures !Overflows(s, op)
  {
  }

  // ---------------------------------------------------------------------
  // Errors

  // What a caller can see, decided from the arguments and the visible state.
  predicate Expected(s: State, op: Op, e: Error) {
    match e
    case UnknownCpu => op.cpu !in s.queues
    case DuplicateTask => op.CreateTask? && op.task in s.tasks
    case UnknownTask => op.WakeTask? && op.task !in s.tasks
    case WrongState =>
      (op.DispatchOn? && op.cpu in s.current && s.current[op.cpu].Some?)
      || ((op.YieldCurrent? || op.BlockCurrent? || op.ExitCurrent?) && op.cpu in s.current && s.current[op.cpu].None?)
      || (op.WakeTask? && op.task in s.tasks && s.tasks[op.task].state != Blocked)
    case ForeignCpu => false
    case DuplicateQueueEntry => false
    case GenerationOverflow => Overflows(s, op)
  }

  lemma NoDuplicateEntry(s: State, t: int, c: int)
    requires Inv(s)
    ensures Wake(s, t, c).1 != Err(DuplicateQueueEntry)
  {
  }

  lemma DispatchErrors(s: State, c: int)
    requires Inv(s) && Dispatch(s, c).1.Err?
    ensures Expected(s, DispatchOn(c), Dispatch(s, c).1.error)
  {
    if c in s.current && s.current[c].None? && c in s.queues {
      if s.queues[c] != [] {
        var q := s.queues[c];
        StartKeeps(s, s.(queues := s.queues[c := q[1..]]), c, c, q[0], q[1..]);
      } else if Victim(s.queues, c).Some? {
        var v := Victim(s.queues, c).value;
        var q := s.queues[v];
        StartKeeps(s, s.(queues := s.queues[v := q[..|q| - 1]], steals := Saturate(s.steals + 1)),
          c, v, q[|q| - 1], q[..|q| - 1]);
      }
    }
  }

  /** The guards on placed tasks are unreachable, and a refusal changes nothing
      (the exhausted yield excepted). */
  lemma OnlyExpectedErrors(s: State, op: Op)
    requires Inv(s) && Apply(s, op).1.Some?
    ensures Expected(s, op, Apply(s, op).1.value)
    ensures Step(s, op) == s <==> !Overflows(s, op)
  {
    match op {
      case DispatchOn(c) => DispatchErrors(s, c); DispatchKeeps(s, c);
      case WakeTask(t, c) => NoDuplicateEntry(s, t, c);
      case YieldCurrent(c) =>
      case CreateTask(t, c) =>
      case BlockCurrent(c) =>
      case ExitCurrent(c, code) =>
    }
  }

  // What a placed scheduler keeps through an operation that is not a yield.
  lemma Kept(s: State, op: Op)
    requires !op.YieldCurrent?
    ensures Inv(s) ==> Inv(Step(s, op)) && (Apply(s, op).1.Some? ==> Step(s, op) == s)
  {
    hide Inv, Step;
    if Inv(s) {
      NotYield(s, op);
      KeepsPlacementExactly(s, op);
      if Apply(s, op).1.Some? { OnlyExpectedErrors(s, op); }
    }
  }

  lemma YieldKept(s: State, c: int)
    ensures Inv(s) ==>
      && (Inv(Yield(s, c).0) <==> Yield(s, c).1 != Err(GenerationOverflow))
      && (Yield(s, c).1.Err? && Yield(s, c).1.error != GenerationOverflow ==> Yield(s, c).0 == s)
  {
    if Inv(s) {
      if Overflows(s, YieldCurrent(c)) { OverflowLoses(s, c); } else { YieldKeeps(s, c); }
    }
  }

  // A task that leaves its CPU is in no queue.
  lemma LeavesAll(s: State, c: int, next: TaskState)
    ensures Inv(s) && Leave(s, c, next).1.Ok? ==> !Queued(Leave(s, c, next).0.queues, Leave(s, c, next).1.value)
  {
  }

  // What a slot holds is a task running there.
  lemma SlotHeld(s: State, c: int)
    ensures Inv(s) && c in s.current ==> c in s.queues
    ensures Inv(s) && c in s.current && s.current[c].Some? ==>
      s.current[c].value in s.tasks && s.tasks[s.current[c].value].state == Running(c)
  {
  }

  lemma FreeDispatches(s: State, c: int)
    ensures Inv(s) ==> (Dispatch(s, c).1.Ok? <==> c in s.current && s.current[c].None?)
  {
    if Inv(s) {
      if Dispatch(s, c).1.Err? { DispatchErrors(s, c); }
    }
  }

  lemma IdleExactly(s: State, c: int)
    ensures Inv(s) ==> (Dispatch(s, c).1 == Ok(None) <==>
      c in s.current && s.current[c].None? && forall d :: d in s.queues ==> s.queues[d] == [])
  {
    if Inv(s) && c in s.current && s.current[c].None? { NothingToRun(s, c); }
  }

  // ---------------------------------------------------------------------
  // Runs

  ghost function Run(s: State, ops: seq<Op>): State
    decreases |ops|
  {
    if ops == [] then s else Run(Step(s, ops[0]), ops[1..])
  }

  lemma {:induction false} RunConcat(s: State, first: seq<Op>, second: seq<Op>)
    ensures Run(s, first + second) == Run(Run(s, first), second)
    decreases |first|
  {
    hide Step;
    if first == [] {
      assert first + second == second;
    } else {
      RunConcat(Step(s, first[0]), first[1..], second);
      assert (first + second)[0] == first[0] && (first + second)[1..] == first[1..] + second;
    }
  }

  // One task on one CPU, created, dispatched, and then yielded and dispatched n times.
  function WearOut(n: nat): seq<Op> {
    if n == 0 then [CreateTask(7, 0), DispatchOn(0)]
    else WearOut(n - 1) + [YieldCurrent(0), DispatchOn(0)]
  }

  // Task 7 running on CPU 0 at generation n.
  function Worn(n: nat): State {
    State(map[0 := []], map[7 := Task(Running(0), n)], map[0 := Some(7)], Saturate(n + 1), 0)
  }

  lemma TwoSteps(s: State, a: Op, b: Op)
    ensures Run(s, [a, b]) == Step(Step(s, a), b)
  {
    hide Step;
    assert [a, b][1..] == [b] && [b][1..] == [];
    assert Run(Step(s, a), [b]) == Run(Step(Step(s, a), b), []);
  }

  // Task 7 waiting in the queue of CPU 0.
  function Waiting(n: nat, dispatches: int): State {
    State(map[0 := [7]], map[7 := Task(Runnable, n)], map[0 := None], dispatches, 0)
  }

  lemma DispatchWaiting(n: nat, dispatches: int)
    ensures Step(Waiting(n, dispatches), DispatchOn(0)) == Worn(n).(dispatches := Saturate(dispatches + 1))
  {
    var s := Waiting(n, dispatches);
    assert s.queues[0][1..] == [] && s.queues[0 := []] == map[0 := []];
    assert s.tasks[7 := Task(Running(0), n)] == map[7 := Task(Running(0), n)];
    assert s.current[0 := Some(7)] == map[0 := Some(7)];
  }

  lemma YieldWorn(n: nat)
    requires n + 1 < U64_LIMIT
    ensures Step(Worn(n), YieldCurrent(0)) == Waiting(n + 1, Worn(n).dispatches)
  {
    var s := Worn(n);
    assert s.queues[0] + [7] == [7] && s.queues[0 := [7]] == map[0 := [7]];
    assert s.tasks[7 := Task(Runnable, n + 1)] == map[7 := Task(Runnable, n + 1)];
    assert s.current[0 := None] == map[0 := None];
  }

  lemma CreateFirst()
    ensures Step(Init({0}), CreateTask(7, 0)) == Waiting(0, 0)
  {
    var s := Init({0});
    assert s.queues == map[0 := []] && s.current == map[0 := None];
    assert s.queues[0] + [7] == [7] && s.queues[0 := [7]] == map[0 := [7]];
  }

  lemma WearOnce(n: nat, ops: seq<Op>)
    requires n + 1 < U64_LIMIT && Run(Init({0}), ops) == Worn(n)
    ensures Run(Init({0}), ops + [YieldCurrent(0), DispatchOn(0)]) == Worn(n + 1)
  {
    YieldWorn(n);
    DispatchWaiting(n + 1, Worn(n).dispatches);
    hide Step, Run;
    RunConcat(Init({0}), ops, [YieldCurrent(0), DispatchOn(0)]);
    TwoSteps(Worn(n), YieldCurrent(0), DispatchOn(0));
  }

  /** Every generation is reached from the start. */
  lemma {:induction false} EveryGenerationReached(n: nat)
    requires n < U64_LIMIT
    ensures Run(Init({0}), WearOut(n)) == Worn(n)
  {
    hide Run, Step;
    if n == 0 {
      CreateFirst();
      DispatchWaiting(0, 0);
      TwoSteps(Init({0}), CreateTask(7, 0), DispatchOn(0));
    } else {
      hide Worn;
      EveryGenerationReached(n - 1);
      WearOnce(n - 1, WearOut(n - 1));
    }
  }

  // The state that run reaches at the last generation.
  lemma WornIsPlaced(n: nat)
    requires n < U64_LIMIT
    ensures Inv(Worn(n)) && (n == U64_MAX ==> Overflows(Worn(n), YieldCurrent(0)))
  {
    var s := Worn(n);
    assert forall x :: !Queued(s.queues, x);
  }

  /** Yielded once more at the last generation, the task stays marked running and is nowhere. */
  lemma LostTask(last: nat)
    requires last == U64_MAX
    ensures var s := Run(Init({0}), WearOut(last)); var t := Step(s, YieldCurrent(0));
      && Inv(s) && Apply(s, YieldCurrent(0)).1 == Some(GenerationOverflow)
      && 7 in t.tasks && t.tasks[7].state == Running(0) && 0 in t.current && t.current[0].None?
      && !Queued(t.queues, 7) && !Inv(t)
  {
    EveryGenerationReached(last);
    WornIsPlaced(last);
    hide Run, WearOut, Inv;
    OverflowLoses(Worn(last), 0);
  }

  ghost predicate NoOverflow(s: State, ops: seq<Op>)
    decreases |ops|
  {
    ops != [] ==> !Overflows(s, ops[0]) && NoOverflow(Step(s, ops[0]), ops[1..])
  }

  lemma {:induction false} RunKeepsPlacement(s: State, ops: seq<Op>)
    requires Inv(s) && NoOverflow(s, ops)
    ensures Inv(Run(s, ops))
    decreases |ops|
  {
    hide Inv, Overflows, Step;
    if ops != [] {
      KeepsPlacementExactly(s, ops[0]);
      RunKeepsPlacement(Step(s, ops[0]), ops[1..]);
    }
  }

  lemma ExitedStep(s: State, op: Op, t: int)
    requires QueuesInv(s) && t in s.tasks && s.tasks[t].state.Exited?
    ensures t in Step(s, op).tasks && Step(s, op).tasks[t] == s.tasks[t]
  {
    hide Distinct;
  }

  // Taking a task out of a queue, whatever becomes of it.
  lemma QueuesPop(s: State, c: int, t: int, rest: seq<int>)
    requires QueuesInv(s) && c in s.queues && s.queues[c] != []
    requires (t == s.queues[c][0] && rest == s.queues[c][1..])
      || (t == s.queues[c][|s.queues[c]| - 1] && rest == s.queues[c][..|s.queues[c]| - 1])
    ensures var q := s.queues[c := rest];
      && Distinct(q) && t in s.tasks && s.tasks[t].state == Runnable
      && forall d, x :: d in q && x in q[d] ==> x != t && x in s.tasks && s.tasks[x].state == Runnable
  {
    assert t in s.queues[c];
    PopKeeps(s.queues, c, t, rest);
    hide Distinct;
    var q := s.queues[c := rest];
    forall d, x | d in q && x in q[d]
      ensures x != t && x in s.tasks && s.tasks[x].state == Runnable
    {
      assert Queued(q, x);
      assert Queued(s.queues, x);
      var e :| e in s.queues && x in s.queues[e];
    }
  }

  lemma QueuesPush(s: State, c: int, t: int)
    requires QueuesInv(s) && c in s.queues && (t in s.tasks ==> s.tasks[t].state != Runnable)
    ensures Distinct(s.queues[c := s.queues[c] + [t]])
  {
    PushKeeps(s.queues, c, t);
  }

  // The queues stay in order through every operation, the exhausted yield included.
  lemma QueuesStep(s: State, op: Op)
    requires QueuesInv(s)
    ensures QueuesInv(Step(s, op))
  {
    hide Distinct;
    match op {
      case CreateTask(t, c) => if c in s.queues && t !in s.tasks { QueuesPush(s, c, t); }
      case WakeTask(t, c) => if c in s.queues && t in s.tasks && s.tasks[t].state == Blocked { QueuesPush(s, c, t); }
      case YieldCurrent(c) =>
        if c in s.current && s.current[c].Some? && c in s.queues {
          var t := s.current[c].value;
          if t in s.tasks && s.tasks[t].state == Running(c) { QueuesPush(s, c, t); }
        }
      case DispatchOn(c) => QueuesDispatch(s, c);
      case BlockCurrent(c) =>
      case ExitCurrent(c, code) =>
    }
  }

  lemma QueuesDispatch(s: State, c: int)
    requires QueuesInv(s)
    ensures QueuesInv(Dispatch(s, c).0)
  {
    hide Distinct;
    if c in s.current && s.current[c].None? && c in s.queues {
      if s.queues[c] != [] {
        var q := s.queues[c];
        QueuesPop(s, c, q[0], q[1..]);
      } else if Victim(s.queues, c).Some? {
        var v := Victim(s.queues, c).value;
        var q := s.queues[v];
        QueuesPop(s, v, q[|q| - 1], q[..|q| - 1]);
      }
    }
  }

  /** An exited task keeps its record for ever. */
  lemma {:induction false} ExitedForEver(s: State, ops: seq<Op>, t: int)
    requires QueuesInv(s) && t in s.tasks && s.tasks[t].state.Exited?
    ensures t in Run(s, ops).tasks && Run(s, ops).tasks[t] == s.tasks[t]
    decreases |ops|
  {
    hide QueuesInv, Step;
    if ops != [] {
      ExitedStep(s, ops[0], t);
      QueuesStep(s, ops[0]);
      ExitedForEver(Step(s, ops[0]), ops[1..], t);
    }
  }

  // ---------------------------------------------------------------------
  // Dispatch

  /** Work conservation: an idle CPU finds nothing exactly when no queue holds a task. */
  lemma NothingToRun(s: State, c: int)
    requires Inv(s) && c in s.current && s.current[c].None?
    ensures Dispatch(s, c).1 == Ok(None) <==> forall d :: d in s.queues ==> s.queues[d] == []
  {
    if s.queues[c] != [] {
      var q := s.queues[c];
      StartKeeps(s, s.(queues := s.queues[c := q[1..]]), c, c, q[0], q[1..]);
    } else if Victim(s.queues, c).Some? {
      var v := Victim(s.queues, c).value;
      var q := s.queues[v];
      StartKeeps(s, s.(queues := s.queues[v := q[..|q| - 1]], steals := Saturate(s.steals + 1)),
        c, v, q[|q| - 1], q[..|q| - 1]);
    }
  }

  /** What an idle CPU runs: the front of its own queue, or the back of the longest
      other queue, ties to the lowest CPU. */
  lemma WhatRuns(s: State, c: int, t: int)
    requires Inv(s) && Dispatch(s, c).1 == Ok(Some(t))
    ensures s.queues[c] != [] ==> t == s.queues[c][0] && Dispatch(s, c).0.queues == s.queues[c := s.queues[c][1..]]
    ensures s.queues[c] == [] ==> exists v :: IsVictim(s.queues, c, v) && s.queues[v] != [] && t == s.queues[v][|s.queues[v]| - 1]
                                         && Dispatch(s, c).0.queues == s.queues[v := s.queues[v][..|s.queues[v]| - 1]]
    ensures Dispatch(s, c).0.current[c] == Some(t) && Dispatch(s, c).0.tasks[t].state == Running(c)
    ensures Dispatch(s, c).0.steals == if s.queues[c] == [] then Saturate(s.steals + 1) else s.steals
    ensures Dispatch(s, c).0.dispatches == Saturate(s.dispatches + 1)
  {
  }

  // ---------------------------------------------------------------------
  // Bounded bypass

  ghost predicate IsRunning(s: State, t: int) {
    t in s.tasks && s.tasks[t].state.Running?
  }

  // The task runs at some point of the run.
  ghost predicate RunsDuring(s: State, ops: seq<Op>, t: int)
    decreases |ops|
  {
    IsRunning(s, t) || (ops != [] && RunsDuring(Step(s, ops[0]), ops[1..], t))
  }

  ghost predicate Dispatched(s: State, op: Op, c: int) {
    op == DispatchOn(c) && Apply(s, op).1.None?
  }

  // How often a CPU dispatches in a run.
  ghost function Dispatches(s: State, ops: seq<Op>, c: int): nat
    decreases |ops|
  {
    if ops == [] then 0
    else (if Dispatched(s, ops[0], c) then 1 else 0) + Dispatches(Step(s, ops[0]), ops[1..], c)
  }

  ghost predicate At(s: State, c: int, k: nat, t: int) {
    c in s.queues && k < |s.queues[c]| && s.queues[c][k] == t
  }

  lemma OwnDispatch(s: State, c: int, k: nat, t: int)
    requires QueuesInv(s) && At(s, c, k, t)
    ensures var s' := Step(s, DispatchOn(c));
      if Dispatched(s, DispatchOn(c), c) then IsRunning(s', t) || (k > 0 && At(s', c, k - 1, t)) else s' == s
  {
    if c in s.current && s.current[c].None? {
      var q := s.queues[c];
      QueuesPop(s, c, q[0], q[1..]);
    }
  }

  lemma OtherDispatch(s: State, d: int, c: int, k: nat, t: int)
    requires QueuesInv(s) && At(s, c, k, t) && d != c
    ensures var s' := Step(s, DispatchOn(d)); IsRunning(s', t) || At(s', c, k, t)
  {
    if d in s.current && s.current[d].None? && d in s.queues {
      if s.queues[d] != [] {
        QueuesPop(s, d, s.queues[d][0], s.queues[d][1..]);
      } else if Victim(s.queues, d).Some? {
        var v := Victim(s.queues, d).value;
        var q := s.queues[v];
        QueuesPop(s, v, q[|q| - 1], q[..|q| - 1]);
      }
    }
  }

  // One operation: the task runs, or waits no further back than before.
  lemma BypassStep(s: State, op: Op, c: int, k: nat, t: int)
    requires QueuesInv(s) && At(s, c, k, t)
    ensures var s' := Step(s, op);
      IsRunning(s', t) || (if Dispatched(s, op, c) then k > 0 && At(s', c, k - 1, t) else At(s', c, k, t))
  {
    if op.DispatchOn? {
      if op.cpu == c { OwnDispatch(s, c, k, t); } else { OtherDispatch(s, op.cpu, c, k, t); }
    } else {
      hide Distinct;
    }
  }

  /** A task at position k of a queue runs, somewhere, by the time that queue's CPU has
      dispatched k + 1 times, whatever the others push, wake or steal. */
  lemma {:induction false} BoundedBypass(s: State, ops: seq<Op>, c: int, k: nat, t: int)
    requires QueuesInv(s) && At(s, c, k, t) && Dispatches(s, ops, c) >= k + 1
    ensures RunsDuring(s, ops, t)
    decreases |ops|
  {
    hide QueuesInv, Step, At, IsRunning, Dispatched;
    BypassStep(s, ops[0], c, k, t);
    QueuesStep(s, ops[0]);
    var s' := Step(s, ops[0]);
    if !IsRunning(s', t) {
      BoundedBypass(s', ops[1..], c, if Dispatched(s, ops[0], c) then k - 1 else k, t);
    }
  }
}

/** Per-CPU run queues with stealing: the operations on values, and the placement
    of every task. */
module Scheduling {
  import opened Wrappers
  import opened Machine

  datatype TaskState = Runnable | Running(cpu: int) | Blocked | Exited(code: int)
  datatype Task = Task(state: TaskState, generation: int)
  datatype Error =
    | UnknownCpu | DuplicateTask | UnknownTask | WrongState
    | ForeignCpu | DuplicateQueueEntry | GenerationOverflow

  type Queues = map<int, seq<int>>

  datatype State = State(
    queues: Queues,
    tasks: map<int, Task>,
    current: map<int, Option<int>>,
    dispatches: int,
    steals: int)

  function Init(cpus: set<int>): State {
    State(map c | c in cpus :: [], map[], map c | c in cpus :: None, 0, 0)
  }

  // ---------------------------------------------------------------------
  // Stealing: the longest queue, ties to the lowest CPU

  // CPU v comes before CPU w when a victim is chosen.
  predicate Longer(queues: Queues, v: int, w: int)
    requires v in queues && w in queues
  {
    |queues[v]| > |queues[w]| || (|queues[v]| == |queues[w]| && v <= w)
  }

  ghost predicate IsVictim(queues: Queues, requester: int, v: int) {
    && v in queues && v != requester
    && forall w :: w in queues && w != requester ==> Longer(queues, v, w)
  }

  lemma {:induction false} VictimExists(queues: Queues, requester: int, ks: set<int>)
    requires ks != {} && ks <= queues.Keys - {requester}
    ensures exists v :: v in ks && forall w :: w in ks ==> Longer(queues, v, w)
    decreases |ks|
  {
    assert (forall x :: x !in ks) ==> ks == {};
    var x :| x in ks;
    var rest := ks - {x};
    if rest == {} {
      assert ks == {x};
      assert forall w :: w in ks ==> Longer(queues, x, w);
    } else {
      VictimExists(queues, requester, rest);
      var y :| y in rest && forall w :: w in rest ==> Longer(queues, y, w);
      var v := if Longer(queues, x, y) then x else y;
      assert forall w :: w in ks ==> w == x || w in rest;
      assert forall w :: w in ks ==> Longer(queues, v, w);
    }
  }

  // The victim, when there is another CPU and its queue is not empty.
  ghost function Victim(queues: Queues, requester: int): (r: Option<int>)
    ensures r.Some? ==> IsVictim(queues, requester, r.value) && queues[r.value] != []
    ensures r.None? ==> forall w :: w in queues && w != requester ==> queues[w] == []
  {
    var others := queues.Keys - {requester};
    if others == {} then
      assert forall w :: w in queues && w != requester ==> w in others;
      None
    else
      VictimExists(queues, requester, others);
      assert exists v :: IsVictim(queues, requester, v) by {
        var v :| v in others && forall w :: w in others ==> Longer(queues, v, w);
        assert forall w :: w in queues && w != requester ==> w in others;
        assert IsVictim(queues, requester, v);
      }
      var v :| IsVictim(queues, requester, v);
      if queues[v] == [] then
        assert forall w :: w in queues && w != requester ==> Longer(queues, v, w);
        None
      else Some(v)
  }

  lemma VictimUnique(queues: Queues, requester: int, v: int, w: int)
    requires IsVictim(queues, requester, v) && IsVictim(queues, requester, w)
    ensures v == w
  {
    assert Longer(queues, v, w) && Longer(queues, w, v);
  }

  // ---------------------------------------------------------------------
  // The operations

  function Create(s: State, task: int, cpu: int): (State, Result<(), Error>) {
    if cpu !in s.queues then (s, Err(UnknownCpu))
    else if task in s.tasks then (s, Err(DuplicateTask))
    else (s.(tasks := s.tasks[task := Task(Runnable, 0)], queues := s.queues[cpu := s.queues[cpu] + [task]]), Ok(()))
  }

  // Mark a task taken from a queue as running.
  function Start(s: State, cpu: int, task: int): (State, Result<Option<int>, Error>) {
    if task !in s.tasks then (s, Err(UnknownTask))
    else if s.tasks[task].state != Runnable then (s, Err(WrongState))
    else
      (s.(tasks := s.tasks[task := s.tasks[task].(state := Running(cpu))],
          current := s.current[cpu := Some(task)],
          dispatches := Saturate(s.dispatches + 1)), Ok(Some(task)))
  }

  ghost function Dispatch(s: State, cpu: int): (State, Result<Option<int>, Error>) {
    if cpu !in s.current then (s, Err(UnknownCpu))
    else if s.current[cpu].Some? then (s, Err(WrongState))
    else if cpu !in s.queues then (s, Err(UnknownCpu))
    else if s.queues[cpu] != [] then
      var q := s.queues[cpu];
      Start(s.(queues := s.queues[cpu := q[1..]]), cpu, q[0])
    else
      match Victim(s.queues, cpu)
      case None => (s, Ok(None))
      case Some(v) =>
        var q := s.queues[v];
        Start(s.(queues := s.queues[v := q[..|q| - 1]], steals := Saturate(s.steals + 1)), cpu, q[|q| - 1])
  }

  function Yield(s: State, cpu: int): (State, Result<int, Error>) {
    if cpu !in s.current then (s, Err(UnknownCpu))
    else if s.current[cpu].None? then (s, Err(WrongState))
    else
      var task := s.current[cpu].value;
      var t := s.(current := s.current[cpu := None]);
      if task !in t.tasks then (t, Err(UnknownTask))
      else if t.tasks[task].state != Running(cpu) then (t, Err(ForeignCpu))
      else if t.tasks[task].generation + 1 >= U64_LIMIT then (t, Err(GenerationOverflow))
      else
        var u := t.(tasks := t.tasks[task := Task(Runnable, t.tasks[task].generation + 1)]);
        if cpu !in u.queues then (u, Err(UnknownCpu))
        else (u.(queues := u.queues[cpu := u.queues[cpu] + [task]]), Ok(task))
  }

  // `block_current` and `exit_current`
  function Leave(s: State, cpu: int, next: TaskState): (State, Result<int, Error>) {
    if cpu !in s.current then (s, Err(UnknownCpu))
    else if s.current[cpu].None? then (s, Err(WrongState))
    else
      var task := s.current[cpu].value;
      var t := s.(current := s.current[cpu := None]);
      if task !in t.tasks then (t, Err(UnknownTask))
      else if t.tasks[task].state != Running(cpu) then (t, Err(ForeignCpu))
      else (t.(tasks := t.tasks[task := t.tasks[task].(state := next)]), Ok(task))
  }

  function Wake(s: State, task: int, cpu: int): (State, Result<(), Error>) {
    if cpu !in s.queues then (s, Err(UnknownCpu))
    else if task !in s.tasks then (s, Err(UnknownTask))
    else if s.tasks[task].state != Blocked then (s, Err(WrongState))
    else if task in s.queues[cpu] then (s, Err(DuplicateQueueEntry))
    else
      (s.(tasks := s.tasks[task := s.tasks[task].(state := Runnable)],
          queues := s.queues[cpu := s.queues[cpu] + [task]]), Ok(()))
  }

  // ---------------------------------------------------------------------
  // Placement

  ghost predicate Queued(queues: Queues, t: int) {
    exists c :: c in queues && t in queues[c]
  }

  predicate NoDup(q: seq<int>) {
    forall i, j :: 0 <= i < j < |q| ==> q[i] != q[j]
  }

  // No task is in two queues, or twice in one.
  ghost predicate Distinct(queues: Queues) {
    && (forall c :: c in queues ==> NoDup(queues[c]))
    && forall c, d, t :: c in queues && d in queues && t in queues[c] && t in queues[d] ==> c == d
  }

  // Queues hold distinct runnable tasks.
  ghost predicate QueuesInv(s: State) {
    && Distinct(s.queues)
    && forall c, t :: c in s.queues && t in s.queues[c] ==> t in s.tasks && s.tasks[t].state == Runnable
  }

  /** Every task is in exactly one place: one queue if runnable, the one `current`
      slot of its CPU if running, nowhere otherwise. */
  ghost predicate Inv(s: State) {
    && s.queues.Keys == s.current.Keys
    && QueuesInv(s)
    && (forall c :: c in s.current && s.current[c].Some? ==>
          s.current[c].value in s.tasks && s.tasks[s.current[c].value].state == Running(c))
    && (forall t :: t in s.tasks && s.tasks[t].state == Runnable ==> Queued(s.queues, t))
    && (forall t :: t in s.tasks && s.tasks[t].state.Running? ==>
          s.tasks[t].state.cpu in s.current && s.current[s.tasks[t].state.cpu] == Some(t))
  }

  lemma InitInv(cpus: set<int>)
    ensures Inv(Init(cpus))
  {
  }

  lemma PushKeeps(queues: Queues, c: int, t: int)
    requires Distinct(queues) && c in queues && !Queued(queues, t)
    ensures var q := queues[c := queues[c] + [t]];
      Distinct(q) && forall x :: Queued(q, x) <==> x == t || Queued(queues, x)
  {
    var q := queues[c := queues[c] + [t]];
    forall x
      ensures Queued(q, x) <==> x == t || Queued(queues, x)
    {
      if x == t { assert t in q[c]; }
      if Queued(queues, x) {
        var d :| d in queues && x in queues[d];
        assert x in q[d];
      }
    }
  }

  // Taking a task from either end of its queue.
  lemma PopKeeps(queues: Queues, c: int, t: int, rest: seq<int>)
    requires Distinct(queues) && c in queues && queues[c] != []
    requires (t == queues[c][0] && rest == queues[c][1..])
      || (t == queues[c][|queues[c]| - 1] && rest == queues[c][..|queues[c]| - 1])
    ensures var q := queues[c := rest];
      Distinct(q) && !Queued(q, t) && Queued(queues, t) && forall x :: Queued(q, x) <==> x != t && Queued(queues, x)
  {
    var q := queues[c := rest];
    assert t in queues[c] && NoDup(queues[c]);
    assert t !in rest && forall x :: x in queues[c] <==> x == t || x in rest;
    forall x
      ensures Queued(q, x) <==> x != t && Queued(queues, x)
    {
      if Queued(q, x) {
        var d :| d in q && x in q[d];
        assert x in queues[d];
      }
      if x != t && Queued(queues, x) {
        var d :| d in queues && x in queues[d];
        assert x in q[d];
      }
    }
  }
}

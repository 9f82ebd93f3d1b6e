/** The scheduler as the object the kernel holds. */
module Schedulers {
  import opened Wrappers
  import opened Machine
  import opened Ordered
  import opened Scheduling
  import Spec = Scheduling
  import Runs = SchedulerRuns

  class Scheduler {
    var queues: Queues
    var tasks: map<int, Task>
    var current: map<int, Option<int>>
    var completedDispatches: int
    var steals: int

    ghost function View(): State
      reads this
    {
      State(queues, tasks, current, completedDispatches, steals)
    }

    // Every task in exactly one place.
    ghost predicate Valid()
      reads this
    {
      Inv(View())
    }

    constructor (cpus: set<int>)
      ensures View() == Init(cpus) && Valid()
    {
      queues := map c | c in cpus :: [];
      tasks := map[];
      current := map c | c in cpus :: None;
      completedDispatches, steals := 0, 0;
      new;
      InitInv(cpus);
    }

    method CreateTask(task: int, cpu: int) returns (r: Result<(), Error>)
      modifies this
      ensures (View(), r) == Spec.Create(old(View()), task, cpu)
      ensures old(Valid()) ==> Valid()
      ensures old(Valid()) && r.Err? ==> View() == old(View())
      ensures r.Ok? <==> cpu in old(queues) && task !in old(tasks)
      ensures r.Ok? ==> View() == old(View()).(tasks := old(tasks)[task := Task(Runnable, 0)],
                                               queues := old(queues)[cpu := old(queues)[cpu] + [task]])
    {
      Runs.Kept(View(), Runs.CreateTask(task, cpu));
      hide Inv;
      if cpu !in queues { return Err(UnknownCpu); }
      if task in tasks { return Err(DuplicateTask); }
      tasks := tasks[task := Task(Runnable, 0)];
      queues := queues[cpu := queues[cpu] + [task]];
      r := Ok(());
    }

    // `max_by_key` over the other queues in ascending order.
    method FindVictim(requester: int) returns (victim: Option<int>)
      ensures victim == Victim(queues, requester)
    {
      var keys := Sorted(queues.Keys);
      var best: Option<int> := None;
      var i := 0;
      while i < |keys|
        invariant 0 <= i <= |keys|
        invariant best.None? ==> forall j :: 0 <= j < i ==> keys[j] == requester
        invariant best.Some? ==>
          && best.value in queues && best.value != requester
          && forall j :: 0 <= j < i && keys[j] != requester ==> Longer(queues, best.value, keys[j])
      {
        var cpu := keys[i];
        assert cpu in queues;
        if cpu != requester && (best.None? || Longer(queues, cpu, best.value)) {
          best := Some(cpu);
        }
        i := i + 1;
      }
      forall w | w in queues && w != requester
        ensures best.Some? && Longer(queues, best.value, w)
      {
        assert w in keys;
        var j :| 0 <= j < |keys| && keys[j] == w;
      }
      if best.Some? {
        ghost var v := best.value;
        assert IsVictim(queues, requester, v);
        if Victim(queues, requester).Some? {
          VictimUnique(queues, requester, v, Victim(queues, requester).value);
        }
        if queues[best.value] != [] { return best; }
      }
      victim := None;
    }

    method Steal(requester: int) returns (task: Option<int>)
      modifies this`queues, this`steals
      ensures match Victim(old(queues), requester)
        case None => task.None? && queues == old(queues) && steals == old(steals)
        case Some(v) =>
          var q := old(queues)[v];
          task == Some(q[|q| - 1]) && queues == old(queues)[v := q[..|q| - 1]] && steals == Saturate(old(steals) + 1)
    {
      var victim := FindVictim(requester);
      if victim.None? { return None; }
      var q := queues[victim.value];
      task := Some(q[|q| - 1]);
      queues := queues[victim.value := q[..|q| - 1]];
      steals := Saturate(steals + 1);
    }

    method DispatchOn(cpu: int) returns (r: Result<Option<int>, Error>)
      modifies this
      ensures (View(), r) == Spec.Dispatch(old(View()), cpu)
      ensures old(Valid()) ==> Valid()
      ensures old(Valid()) && r.Err? ==> View() == old(View())
      ensures old(Valid()) ==> (r.Ok? <==> cpu in old(current) && old(current)[cpu].None?)
      ensures r.Ok? && r.value.Some? ==> && tasks == old(tasks)[r.value.value := Task(Running(cpu), old(tasks)[r.value.value].generation)]
                                         && current == old(current)[cpu := r.value]
      ensures old(Valid()) ==> (r == Ok(None) <==>
        cpu in old(current) && old(current)[cpu].None? && forall d :: d in old(queues) ==> old(queues)[d] == [])
    {
      Runs.Kept(View(), Runs.DispatchOn(cpu));
      Runs.IdleExactly(View(), cpu);
      Runs.FreeDispatches(View(), cpu);
      hide Inv;
      if cpu !in current { return Err(UnknownCpu); }
      if current[cpu].Some? { return Err(WrongState); }
      if cpu !in queues { return Err(UnknownCpu); }
      var task: Option<int>;
      if queues[cpu] != [] {
        task := Some(queues[cpu][0]);
        queues := queues[cpu := queues[cpu][1..]];
      } else {
        task := Steal(cpu);
      }
      if task.Some? {
        if task.value !in tasks { return Err(UnknownTask); }
        if tasks[task.value].state != Runnable { return Err(WrongState); }
        tasks := tasks[task.value := tasks[task.value].(state := Running(cpu))];
        current := current[cpu := task];
        completedDispatches := Saturate(completedDispatches + 1);
      }
      r := Ok(task);
    }

    method YieldCurrent(cpu: int) returns (r: Result<int, Error>)
      modifies this
      ensures (View(), r) == Spec.Yield(old(View()), cpu)
      ensures old(Valid()) ==> (Valid() <==> r != Err(GenerationOverflow))
      ensures old(Valid()) && r.Err? && r.error != GenerationOverflow ==> View() == old(View())
      ensures old(Valid()) ==> (r.Ok? <==> && cpu in old(current) && old(current)[cpu].Some?
                                           && old(tasks)[old(current)[cpu].value].generation + 1 < U64_LIMIT)
      ensures r.Ok? ==> && old(current)[cpu] == Some(r.value)
                        && View() == old(View()).(current := old(current)[cpu := None],
                             tasks := old(tasks)[r.value := Task(Runnable, old(tasks)[r.value].generation + 1)],
                             queues := old(queues)[cpu := old(queues)[cpu] + [r.value]])
    {
      Runs.YieldKept(View(), cpu);
      Runs.SlotHeld(View(), cpu);
      hide Inv;
      if cpu !in current { return Err(UnknownCpu); }
      var taken := current[cpu];
      current := current[cpu := None];
      if taken.None? {
        assert current == old(current);
        return Err(WrongState);
      }
      var task := taken.value;
      if task !in tasks { return Err(UnknownTask); }
      if tasks[task].state != Running(cpu) { return Err(ForeignCpu); }
      if tasks[task].generation + 1 >= U64_LIMIT { return Err(GenerationOverflow); }
      tasks := tasks[task := Task(Runnable, tasks[task].generation + 1)];
      if cpu !in queues { return Err(UnknownCpu); }
      queues := queues[cpu := queues[cpu] + [task]];
      r := Ok(task);
    }

    method LeaveCurrent(cpu: int, next: TaskState) returns (r: Result<int, Error>)
      modifies this
      ensures (View(), r) == Spec.Leave(old(View()), cpu, next)
    {
      if cpu !in current { return Err(UnknownCpu); }
      var taken := current[cpu];
      current := current[cpu := None];
      if taken.None? {
        assert current == old(current);
        return Err(WrongState);
      }
      var task := taken.value;
      if task !in tasks { return Err(UnknownTask); }
      if tasks[task].state != Running(cpu) { return Err(ForeignCpu); }
      tasks := tasks[task := tasks[task].(state := next)];
      r := Ok(task);
    }

    method BlockCurrent(cpu: int) returns (r: Result<int, Error>)
      modifies this
      ensures (View(), r) == Spec.Leave(old(View()), cpu, Blocked)
      ensures old(Valid()) ==> Valid()
      ensures old(Valid()) && r.Err? ==> View() == old(View())
      ensures old(Valid()) ==> (r.Ok? <==> cpu in old(current) && old(current)[cpu].Some?)
      ensures r.Ok? ==> && old(current)[cpu] == Some(r.value)
                        && View() == old(View()).(current := old(current)[cpu := None],
                             tasks := old(tasks)[r.value := Task(Blocked, old(tasks)[r.value].generation)])
      ensures old(Valid()) && r.Ok? ==> !Queued(queues, r.value)
    {
      Runs.Kept(View(), Runs.BlockCurrent(cpu));
      Runs.LeavesAll(View(), cpu, Blocked);
      Runs.SlotHeld(View(), cpu);
      hide Inv;
      r := LeaveCurrent(cpu, Blocked);
    }

    method ExitCurrent(cpu: int, code: int) returns (r: Result<int, Error>)
      modifies this
      ensures (View(), r) == Spec.Leave(old(View()), cpu, Exited(code))
      ensures old(Valid()) ==> Valid()
      ensures old(Valid()) && r.Err? ==> View() == old(View())
      ensures old(Valid()) ==> (r.Ok? <==> cpu in old(current) && old(current)[cpu].Some?)
      ensures r.Ok? ==> && old(current)[cpu] == Some(r.value)
                        && View() == old(View()).(current := old(current)[cpu := None],
                             tasks := old(tasks)[r.value := Task(Exited(code), old(tasks)[r.value].generation)])
      ensures old(Valid()) && r.Ok? ==> !Queued(queues, r.value)
    {
      Runs.Kept(View(), Runs.ExitCurrent(cpu, code));
      Runs.LeavesAll(View(), cpu, Exited(code));
      Runs.SlotHeld(View(), cpu);
      hide Inv;
      r := LeaveCurrent(cpu, Exited(code));
    }

    method WakeTask(task: int, cpu: int) returns (r: Result<(), Error>)
      modifies this
      ensures (View(), r) == Spec.Wake(old(View()), task, cpu)
      ensures old(Valid()) ==> Valid()
      ensures old(Valid()) && r.Err? ==> View() == old(View())
      ensures old(Valid()) ==> r != Err(DuplicateQueueEntry)
      ensures old(Valid()) ==> (r.Ok? <==> cpu in old(queues) && task in old(tasks) && old(tasks)[task].state == Blocked)
      ensures r.Ok? ==> View() == old(View()).(tasks := old(tasks)[task := Task(Runnable, old(tasks)[task].generation)],
                                               queues := old(queues)[cpu := old(queues)[cpu] + [task]])
    {
      Runs.Kept(View(), Runs.WakeTask(task, cpu));
      if Inv(View()) { Runs.NoDuplicateEntry(View(), task, cpu); }
      hide Inv;
      if cpu !in queues { return Err(UnknownCpu); }
      if task !in tasks { return Err(UnknownTask); }
      if tasks[task].state != Blocked { return Err(WrongState); }
      if task in queues[cpu] { return Err(DuplicateQueueEntry); }
      tasks := tasks[task := tasks[task].(state := Runnable)];
      queues := queues[cpu := queues[cpu] + [task]];
      r := Ok(());
    }

    // ---------------------------------------------------------------------
    // The self-check

    // Tasks seen once the queues and slots of some CPUs have been visited.
    ghost predicate SeenExactly(seen: set<int>, cpus: set<int>)
      reads this
      requires cpus <= queues.Keys && queues.Keys == current.Keys
    {
      forall t :: t in seen <==> exists c :: c in cpus && (t in queues[c] || current[c] == Some(t))
    }

    // Visited CPUs hold tasks in the right state, each once.
    ghost predicate Sound(cpus: set<int>)
      reads this
      requires cpus <= queues.Keys && queues.Keys == current.Keys
    {
      && (forall c :: c in cpus ==> NoDup(queues[c]))
      && (forall c, d, t :: c in cpus && d in cpus && t in queues[c] && t in queues[d] ==> c == d)
      && (forall c, t :: c in cpus && t in queues[c] ==> t in tasks && tasks[t].state == Runnable)
      && (forall c :: c in cpus && current[c].Some? ==>
            current[c].value in tasks && tasks[current[c].value].state == Running(c))
    }

    // One queue of the self-check: `insert` each task, stopping at a repeat or a wrong state.
    method CheckQueue(queue: seq<int>, seen0: set<int>) returns (ok: bool, seen: set<int>)
      ensures ok <==>
        && NoDup(queue)
        && forall t :: t in queue ==> t !in seen0 && t in tasks && tasks[t].state == Runnable
      ensures ok ==> forall t :: t in seen <==> t in seen0 || t in queue
    {
      seen := seen0;
      for i := 0 to |queue|
        invariant forall t :: t in seen <==> t in seen0 || t in queue[..i]
        invariant NoDup(queue[..i])
        invariant forall t :: t in queue[..i] ==> t !in seen0 && t in tasks && tasks[t].state == Runnable
      {
        var t := queue[i];
        assert t in queue;
        if t in seen {
          if t !in seen0 {
            assert t in queue[..i];
            var j :| 0 <= j < i && queue[..i][j] == t;
            assert queue[j] == queue[i];
          }
          return false, seen;
        }
        if !(t in tasks && tasks[t].state == Runnable) {
          return false, seen;
        }
        seen := seen + {t};
        assert queue[..i + 1] == queue[..i] + [t];
      }
      assert queue[..|queue|] == queue;
      ok := true;
    }

    // One CPU of the self-check: its queue, then its slot.
    method CheckCpu(cpu: int, seen: set<int>, ghost cpus: set<int>) returns (ok: bool, more: set<int>)
      requires queues.Keys == current.Keys && cpus <= queues.Keys && cpu in queues && cpu !in cpus
      requires SeenExactly(seen, cpus) && Sound(cpus)
      ensures ok ==> SeenExactly(more, cpus + {cpu}) && Sound(cpus + {cpu})
      ensures !ok ==> !Inv(View())
    {
      hide Inv, NoDup, SeenExactly, Sound;
      ok, more := CheckQueue(queues[cpu], seen);
      if !ok {
        QueueFails(cpus, seen, cpu);
        return;
      }
      if current[cpu].Some? {
        var t := current[cpu].value;
        if t in more || !(t in tasks && tasks[t].state == Running(cpu)) {
          SlotFails(cpus, seen, more, cpu);
          return false, more;
        }
        more := more + {t};
      }
      VisitKeeps(cpus, seen, cpu, more);
    }

    /** The looped check is true exactly when every task is in its one place. */
    method InvariantHolds() returns (ok: bool)
      requires queues.Keys == current.Keys
      ensures ok <==> Inv(View())
    {
      var seen: set<int> := {};
      var keys := Sorted(queues.Keys);
      NoneVisited(keys);
      hide Inv, SeenExactly, Sound, Visited;
      for i := 0 to |keys|
        invariant Visited(keys, i) <= queues.Keys
        invariant SeenExactly(seen, Visited(keys, i)) && Sound(Visited(keys, i))
      {
        VisitNext(keys, i, queues.Keys);
        var good, more := CheckCpu(keys[i], seen, Visited(keys, i));
        if !good {
          return false;
        }
        seen := more;
      }
      AllVisited(keys, queues.Keys);
      ok := forall t :: t in tasks ==> tasks[t].state.Blocked? || tasks[t].state.Exited? || t in seen;
      Complete(seen, ok);
    }

    static ghost function Visited(keys: seq<int>, i: nat): set<int>
      requires i <= |keys|
    {
      set x | x in keys[..i]
    }

    lemma NoneVisited(keys: seq<int>)
      requires queues.Keys == current.Keys
      ensures Visited(keys, 0) == {} && SeenExactly({}, {}) && Sound({})
    {
    }

    static lemma VisitNext(keys: seq<int>, i: nat, all: set<int>)
      requires Increasing(keys) && i < |keys| && forall x :: x in keys <==> x in all
      ensures keys[i] !in Visited(keys, i) && keys[i] in all
      ensures Visited(keys, i + 1) == Visited(keys, i) + {keys[i]}
    {
      assert keys[i] in keys;
      assert keys[..i + 1] == keys[..i] + [keys[i]];
    }

    static lemma AllVisited(keys: seq<int>, all: set<int>)
      requires forall x :: x in keys <==> x in all
      ensures Visited(keys, |keys|) == all
    {
      assert keys[..|keys|] == keys;
      forall x
        ensures x in Visited(keys, |keys|) <==> x in all
      {
        assert x in keys <==> x in all;
      }
    }

    lemma QueueFails(cpus: set<int>, seen: set<int>, cpu: int)
      requires queues.Keys == current.Keys && cpus <= queues.Keys && cpu in queues && cpu !in cpus
      requires SeenExactly(seen, cpus) && Sound(cpus)
      requires !(NoDup(queues[cpu])
        && forall t :: t in queues[cpu] ==> t !in seen && t in tasks && tasks[t].state == Runnable)
      ensures !Inv(View())
    {
      if NoDup(queues[cpu]) {
        var t :| t in queues[cpu] && !(t !in seen && t in tasks && tasks[t].state == Runnable);
        if t in seen {
          var c :| c in cpus && (t in queues[c] || current[c] == Some(t));
        }
      }
    }

    lemma SlotFails(cpus: set<int>, seen: set<int>, more: set<int>, cpu: int)
      requires queues.Keys == current.Keys && cpus <= queues.Keys && cpu in queues && cpu !in cpus
      requires SeenExactly(seen, cpus) && Sound(cpus) && current[cpu].Some?
      requires forall t :: t in more <==> t in seen || t in queues[cpu]
      requires var t := current[cpu].value; t in more || !(t in tasks && tasks[t].state == Running(cpu))
      ensures !Inv(View())
    {
      var t := current[cpu].value;
      if t in seen {
        var c :| c in cpus && (t in queues[c] || current[c] == Some(t));
      }
    }

    lemma VisitKeeps(cpus: set<int>, seen: set<int>, cpu: int, more: set<int>)
      requires queues.Keys == current.Keys && cpus <= queues.Keys && cpu in queues && cpu !in cpus
      requires SeenExactly(seen, cpus) && Sound(cpus)
      requires NoDup(queues[cpu])
        && forall t :: t in queues[cpu] ==> t !in seen && t in tasks && tasks[t].state == Runnable
      requires forall t :: t in more <==> t in seen || t in queues[cpu] || current[cpu] == Some(t)
      requires current[cpu].Some? ==>
        current[cpu].value in tasks && tasks[current[cpu].value].state == Running(cpu)
      ensures SeenExactly(more, cpus + {cpu}) && Sound(cpus + {cpu})
    {
      hide Sound;
      var all := cpus + {cpu};
      forall t
        ensures t in more <==> exists c :: c in all && (t in queues[c] || current[c] == Some(t))
      {
        if t in seen {
          var c :| c in cpus && (t in queues[c] || current[c] == Some(t));
          assert c in all;
        }
        if t in queues[cpu] || current[cpu] == Some(t) { assert cpu in all; }
      }
      VisitSound(cpus, seen, cpu);
    }

    lemma VisitSound(cpus: set<int>, seen: set<int>, cpu: int)
      requires queues.Keys == current.Keys && cpus <= queues.Keys && cpu in queues && cpu !in cpus
      requires SeenExactly(seen, cpus) && Sound(cpus)
      requires NoDup(queues[cpu])
        && forall t :: t in queues[cpu] ==> t !in seen && t in tasks && tasks[t].state == Runnable
      requires current[cpu].Some? ==>
        current[cpu].value in tasks && tasks[current[cpu].value].state == Running(cpu)
      ensures Sound(cpus + {cpu})
    {
      hide NoDup;
      forall c, t | c in cpus && t in queues[c]
        ensures t !in queues[cpu]
      {
        assert t in seen;
      }
    }

    lemma Complete(seen: set<int>, ok: bool)
      requires queues.Keys == current.Keys && SeenExactly(seen, queues.Keys) && Sound(queues.Keys)
      requires ok <==> forall t :: t in tasks ==> tasks[t].state.Blocked? || tasks[t].state.Exited? || t in seen
      ensures ok <==> Inv(View())
    {
      var s := View();
      assert QueuesInv(s);
      if ok {
        forall t | t in tasks && (tasks[t].state == Runnable || tasks[t].state.Running?)
          ensures tasks[t].state == Runnable ==> Queued(queues, t)
          ensures tasks[t].state.Running? ==>
            tasks[t].state.cpu in current && current[tasks[t].state.cpu] == Some(t)
        {
          assert t in seen;
          var c :| c in queues.Keys && (t in queues[c] || current[c] == Some(t));
        }
        assert Inv(s);
      }
      if Inv(s) {
        forall t | t in tasks && !tasks[t].state.Blocked? && !tasks[t].state.Exited?
          ensures t in seen
        {
          if tasks[t].state == Runnable {
            assert Queued(queues, t);
            var c :| c in queues && t in queues[c];
            assert c in queues.Keys;
          } else {
            assert current[tasks[t].state.cpu] == Some(t);
          }
        }
      }
    }
  }
}

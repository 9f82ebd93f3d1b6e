/** The SMP state as the object the kernel holds, with its history as ghost fields. */
module SmpObjects {
  import opened Wrappers
  import opened Machine
  import opened Ordered
  import opened Smp
  import opened SmpRuns

  class SmpState {
    var cpus: map<int, Lifecycle>
    var nextIpi: int
    var nextShootdown: int
    var ipis: Epochs
    var shootdowns: Epochs

    // For each shootdown ever begun: who was online then, and who has acknowledged it
    // since; and the epochs reported complete.
    ghost var onlineAt: map<int, set<int>>
    ghost var acked: map<int, set<int>>
    ghost var shootdownsDone: seq<int>
    ghost var ipisDone: seq<int>

    ghost function View(): State
      reads this
    {
      State(cpus, nextIpi, nextShootdown, ipis, shootdowns)
    }

    ghost function Past(): History
      reads this
    {
      History(View(), onlineAt, acked, shootdownsDone, ipisDone)
    }

    ghost predicate Valid()
      reads this
    {
      Inv(Past())
    }

    constructor ()
      ensures Valid() && Past() == Empty
    {
      cpus, nextIpi, nextShootdown, ipis, shootdowns := map[], 0, 0, map[], map[];
      onlineAt, acked, shootdownsDone, ipisDone := map[], map[], [], [];
    }

    method Discover(cpu: int) returns (r: Result<(), Error>)
      requires Valid()
      modifies this
      ensures Valid() && Past() == Step(old(Past()), DiscoverCpu(cpu))
      ensures r == if cpu in old(cpus) then Err(DuplicateCpu) else Ok(())
      ensures cpus[cpu] == Discovered && OnlineCpus(View()) == OnlineCpus(old(View())) - {cpu}
    {
      StepKeeps(Past(), DiscoverCpu(cpu));
      hide Inv;
      var known := cpu in cpus;
      cpus := cpus[cpu := Discovered];
      r := if known then Err(DuplicateCpu) else Ok(());
    }

    method Transition(cpu: int, next: Lifecycle) returns (r: Result<(), Error>)
      requires Valid()
      modifies this
      ensures Valid() && Past() == Step(old(Past()), TransitionCpu(cpu, next))
      ensures r.Ok? <==> cpu in old(cpus) && Legal(old(cpus)[cpu], next)
      ensures View() == if r.Ok? then old(View()).(cpus := old(cpus)[cpu := next]) else old(View())
      ensures r.Ok? ==> OnlineCpus(View()) == if next == Online then OnlineCpus(old(View())) + {cpu} else OnlineCpus(old(View()))
    {
      StepKeeps(Past(), TransitionCpu(cpu, next));
      hide Inv;
      if cpu !in cpus { return Err(UnknownCpu); }
      if !Legal(cpus[cpu], next) { return Err(IllegalTransition); }
      cpus := cpus[cpu := next];
      r := Ok(());
    }

    // `any` over the targets in ascending order.
    method AllOnline(targets: set<int>) returns (ok: bool)
      ensures ok <==> forall c :: c in targets ==> c in cpus && cpus[c] == Online
    {
      var order := Sorted(targets);
      for i := 0 to |order|
        invariant forall j :: 0 <= j < i ==> order[j] in cpus && cpus[order[j]] == Online
      {
        if !(order[i] in cpus && cpus[order[i]] == Online) {
          assert order[i] in targets;
          return false;
        }
      }
      forall c | c in targets
        ensures c in cpus && cpus[c] == Online
      {
        assert c in order;
        var j :| 0 <= j < |order| && order[j] == c;
      }
      ok := true;
    }

    method StartIpi(targets: set<int>) returns (r: Result<int, Error>)
      requires Valid()
      modifies this
      ensures Valid() && Past() == Step(old(Past()), SmpRuns.StartIpi(targets))
      ensures r.Ok? <==> targets <= OnlineCpus(old(View())) && old(nextIpi) + 1 < U64_LIMIT
      ensures r.Ok? ==> r.value !in old(ipis) && IsGreatest(ipis.Keys, r.value) && ipis == old(ipis)[r.value := Pending(targets, {})]
      ensures r.Err? ==> View() == old(View())
    {
      StepKeeps(Past(), SmpRuns.StartIpi(targets));
      IpiBegun(Past(), targets);
      hide Inv, Step, BeginIpi, OnlineCpus;
      r := RecordIpi(targets);
    }

    static lemma IpiBegun(h: History, targets: set<int>)
      requires Inv(h)
      ensures var (s, r) := BeginIpi(h.s, targets);
        && Step(h, SmpRuns.StartIpi(targets)) == h.(s := s)
        && (r.Ok? <==> targets <= OnlineCpus(h.s) && h.s.nextIpi + 1 < U64_LIMIT)
        && (r.Ok? ==> r.value !in h.s.ipis && IsGreatest(s.ipis.Keys, r.value) && s.ipis == h.s.ipis[r.value := Pending(targets, {})])
        && (r.Err? ==> s == h.s)
    {
      if BeginIpi(h.s, targets).1.Ok? {
        assert forall c :: c in targets ==> c in h.s.cpus && h.s.cpus[c] == Online;
      }
    }

    method RecordIpi(targets: set<int>) returns (r: Result<int, Error>)
      modifies this`nextIpi, this`ipis
      ensures (View(), r) == BeginIpi(old(View()), targets)
    {
      var ok := AllOnline(targets);
      if !ok { return Err(CpuNotOnline); }
      if nextIpi + 1 >= U64_LIMIT { return Err(EpochOverflow); }
      nextIpi := nextIpi + 1;
      ipis := ipis[nextIpi := Pending(targets, {})];
      r := Ok(nextIpi);
    }

    method StartShootdown() returns (r: Result<int, Error>)
      requires Valid()
      modifies this
      ensures Valid() && Past() == Step(old(Past()), SmpRuns.StartShootdown)
      ensures r == if old(nextShootdown) + 1 < U64_LIMIT then Ok(old(nextShootdown) + 1) else Err(EpochOverflow)
      ensures r.Ok? ==> r.value !in old(onlineAt) && IsGreatest(shootdowns.Keys, r.value)
      ensures r.Ok? ==> shootdowns == old(shootdowns)[r.value := Pending(OnlineCpus(old(View())), {})]
      ensures r.Err? ==> View() == old(View())
    {
      StepKeeps(Past(), SmpRuns.StartShootdown);
      ShootdownBegun(Past());
      hide Inv, Step, BeginShootdown, OnlineCpus;
      ghost var online := OnlineCpus(View());
      r := RecordShootdown();
      if r.Ok? { onlineAt, acked := onlineAt[r.value := online], acked[r.value := {}]; }
    }

    static lemma ShootdownBegun(h: History)
      requires Inv(h)
      ensures var (s, r) := BeginShootdown(h.s);
        && Step(h, SmpRuns.StartShootdown) == (if r.Err? then h.(s := s)
             else h.(s := s, onlineAt := h.onlineAt[r.value := OnlineCpus(h.s)], acked := h.acked[r.value := {}]))
        && r == (if h.s.nextShootdown + 1 < U64_LIMIT then Ok(h.s.nextShootdown + 1) else Err(EpochOverflow))
        && (r.Ok? ==> r.value !in h.onlineAt && IsGreatest(s.shootdowns.Keys, r.value)
                      && s.shootdowns == h.s.shootdowns[r.value := Pending(OnlineCpus(h.s), {})])
        && (r.Err? ==> s == h.s)
    {
      assert forall e :: e in h.onlineAt ==> e in h.acked;
    }

    method RecordShootdown() returns (r: Result<int, Error>)
      modifies this`nextShootdown, this`shootdowns
      ensures (View(), r) == BeginShootdown(old(View()))
    {
      var targets := set c | c in cpus && cpus[c] == Online;
      if nextShootdown + 1 >= U64_LIMIT { return Err(EpochOverflow); }
      nextShootdown := nextShootdown + 1;
      shootdowns := shootdowns[nextShootdown := Pending(targets, {})];
      r := Ok(nextShootdown);
    }

    method AckIpi(epoch: int, cpu: int) returns (r: Result<bool, Error>)
      requires Valid()
      modifies this
      ensures Valid() && Past() == Step(old(Past()), SmpRuns.AckIpi(epoch, cpu))
      ensures r.Ok? <==> && epoch in old(ipis) && epoch == old(nextIpi)
                         && cpu in old(ipis)[epoch].targets && cpu !in old(ipis)[epoch].acks
      ensures r.Ok? ==> ipis == old(ipis)[epoch := Pending(old(ipis)[epoch].targets, old(ipis)[epoch].acks + {cpu})]
      ensures r.Ok? ==> (r.value <==> ipis[epoch].acks == ipis[epoch].targets)
      ensures r == Ok(true) ==> epoch !in old(ipisDone)
      ensures r.Err? ==> View() == old(View())
    {
      StepKeeps(Past(), SmpRuns.AckIpi(epoch, cpu));
      IpiAck(Past(), epoch, cpu);
      hide Inv, Step;
      r := TakeIpiAck(epoch, cpu);
      if r == Ok(true) { ipisDone := ipisDone + [epoch]; }
      assert Past() == Step(old(Past()), SmpRuns.AckIpi(epoch, cpu)) by {
        AckIpiIs(old(Past()), epoch, cpu);
      }
    }

    static lemma AckIpiIs(h: History, e: int, c: int)
      ensures var (p, r) := Acknowledge(h.s.ipis, e, c);
        Step(h, SmpRuns.AckIpi(e, c)) ==
          h.(s := h.s.(ipis := p), ipisDone := if r == Ok(true) then h.ipisDone + [e] else h.ipisDone)
    {
    }

    static lemma IpiAck(h: History, e: int, c: int)
      requires Inv(h)
      ensures var (p, r) := Acknowledge(h.s.ipis, e, c);
        && (r.Ok? <==> && e in h.s.ipis && e == h.s.nextIpi && c in h.s.ipis[e].targets && c !in h.s.ipis[e].acks)
        && (r.Err? ==> p == h.s.ipis)
        && (r.Ok? ==> p == h.s.ipis[e := Pending(h.s.ipis[e].targets, h.s.ipis[e].acks + {c})])
        && (r.Ok? ==> (r.value <==> p[e].acks == p[e].targets))
        && (r == Ok(true) ==> e !in h.ipisDone)
    {
      AcceptedExactly(h.s.ipis, e, c);
      assert e in h.s.ipis ==> h.s.nextIpi in h.s.ipis;
    }

    method TakeIpiAck(epoch: int, cpu: int) returns (r: Result<bool, Error>)
      modifies this`ipis
      ensures (ipis, r) == Acknowledge(old(ipis), epoch, cpu)
    {
      if ipis == map[] { return Err(UnknownEpoch); }
      if epoch < Greatest(ipis.Keys) { return Err(StaleEpoch); }
      if epoch !in ipis { return Err(UnknownEpoch); }
      var entry := ipis[epoch];
      if cpu !in entry.targets { return Err(ForeignCpu); }
      if cpu in entry.acks { return Err(DuplicateAcknowledgement); }
      entry := entry.(acks := entry.acks + {cpu});
      ipis := ipis[epoch := entry];
      r := Ok(entry.acks == entry.targets);
    }

    method AckShootdown(epoch: int, cpu: int) returns (r: Result<bool, Error>)
      requires Valid()
      modifies this
      ensures Valid() && Past() == Step(old(Past()), SmpRuns.AckShootdown(epoch, cpu))
      ensures r.Ok? <==> && epoch in old(shootdowns) && IsGreatest(old(shootdowns).Keys, epoch)
                         && cpu in old(shootdowns)[epoch].targets && cpu !in old(shootdowns)[epoch].acks
      ensures r.Ok? ==> && epoch in acked && epoch in onlineAt && (r.value <==> acked[epoch] == onlineAt[epoch])
                        && shootdowns == old(shootdowns)[epoch := Pending(onlineAt[epoch], acked[epoch])]
      ensures r == Ok(true) ==> epoch !in old(shootdownsDone)
      ensures r.Err? ==> View() == old(View())
    {
      StepKeeps(Past(), SmpRuns.AckShootdown(epoch, cpu));
      ShootdownAck(Past(), epoch, cpu);
      AckShootdownIs(Past(), epoch, cpu);
      hide Inv, Step, Acknowledge;
      r := TakeShootdownAck(epoch, cpu);
      if r.Ok? {
        acked := acked[epoch := acked[epoch] + {cpu}];
        if r.value { shootdownsDone := shootdownsDone + [epoch]; }
      }
    }

    static lemma AckShootdownIs(h: History, e: int, c: int)
      requires e in h.acked || Acknowledge(h.s.shootdowns, e, c).1.Err?
      ensures var (p, r) := Acknowledge(h.s.shootdowns, e, c);
        Step(h, SmpRuns.AckShootdown(e, c)) ==
          if r.Err? then h.(s := h.s.(shootdowns := p))
          else h.(s := h.s.(shootdowns := p), acked := h.acked[e := h.acked[e] + {c}],
                  shootdownsDone := if r.value then h.shootdownsDone + [e] else h.shootdownsDone)
    {
    }

    static lemma ShootdownAck(h: History, e: int, c: int)
      requires Inv(h)
      ensures var (p, r) := Acknowledge(h.s.shootdowns, e, c);
        && (r.Ok? <==> && e in h.s.shootdowns && IsGreatest(h.s.shootdowns.Keys, e)
                       && c in h.s.shootdowns[e].targets && c !in h.s.shootdowns[e].acks)
        && (r.Err? ==> p == h.s.shootdowns)
        && (r.Ok? ==> e in h.acked && e in h.onlineAt)
        && (r.Ok? ==> (r.value <==> h.acked[e] + {c} == h.onlineAt[e]))
        && (r.Ok? ==> p == h.s.shootdowns[e := Pending(h.onlineAt[e], h.acked[e] + {c})])
        && (r == Ok(true) ==> e !in h.shootdownsDone)
    {
      AcceptedExactly(h.s.shootdowns, e, c);
    }

    method TakeShootdownAck(epoch: int, cpu: int) returns (r: Result<bool, Error>)
      modifies this`shootdowns
      ensures (shootdowns, r) == Acknowledge(old(shootdowns), epoch, cpu)
    {
      if shootdowns == map[] { return Err(UnknownEpoch); }
      if epoch < Greatest(shootdowns.Keys) { return Err(StaleEpoch); }
      if epoch !in shootdowns { return Err(UnknownEpoch); }
      var entry := shootdowns[epoch];
      if cpu !in entry.targets { return Err(ForeignCpu); }
      if cpu in entry.acks { return Err(DuplicateAcknowledgement); }
      entry := entry.(acks := entry.acks + {cpu});
      shootdowns := shootdowns[epoch := entry];
      r := Ok(entry.acks == entry.targets);
    }

    method FinishShootdown(epoch: int) returns (r: Result<(), Error>)
      requires Valid()
      modifies this
      ensures Valid() && Past() == Step(old(Past()), SmpRuns.FinishShootdown(epoch))
      ensures r.Ok? <==> epoch in old(shootdowns) && epoch in onlineAt && epoch in acked && onlineAt[epoch] <= acked[epoch]
      ensures View() == if r.Ok? then old(View()).(shootdowns := old(shootdowns) - {epoch}) else old(View())
    {
      StepKeeps(Past(), SmpRuns.FinishShootdown(epoch));
      PendingIsPast(Past(), epoch);
      hide Inv;
      if epoch !in shootdowns { return Err(UnknownEpoch); }
      if shootdowns[epoch].acks != shootdowns[epoch].targets { return Err(Incomplete); }
      shootdowns := shootdowns - {epoch};
      r := Ok(());
    }

    static lemma PendingIsPast(h: History, e: int)
      requires Inv(h)
      ensures e in h.s.shootdowns ==> && e in h.onlineAt && e in h.acked && h.acked[e] <= h.onlineAt[e]
                                      && h.s.shootdowns[e] == Pending(h.onlineAt[e], h.acked[e])
    {
    }
  }
}

/** The rewrite between the two clause surfaces, and when its directions undo
    each other. */
module Migrate {
  import opened ClauseText
  import opened ClauseUnits

  // ---------------------------------------------------------------------
  // Renaming clauses

  function RenameUnit(from: Surface, to: Surface, u: Unit): Unit
    requires GoodUnit(from, u)
  {
    Unit(u.kind, [Render(to, Match(from, u.lines[0]).value)] + u.lines[1..])
  }

  lemma RenameUnitKeeps(from: Surface, to: Surface, u: Unit)
    requires GoodUnit(from, u)
    ensures var r := RenameUnit(from, to, u);
      && GoodUnit(to, r) && r.kind == u.kind && RenameUnit(to, from, r) == u
      && r.lines[1..] == u.lines[1..] && |r.lines| == |u.lines|
      && (ClosedUnit(r) <==> ClosedUnit(u)) && (OpenUnit(r) <==> OpenUnit(u))
  {
    hide Match, Render, Closes, Open, GoodClause, Delta;
    var c := Match(from, u.lines[0]).value;
    MatchSound(from, u.lines[0]);
    MatchComplete(to, c);
    RenameKeepsDelta(c);
    var r := RenameUnit(from, to, u);
    assert r.lines[0] == Render(to, c) && r.lines[1..] == u.lines[1..];
    assert [u.lines[0]] + u.lines[1..] == u.lines;
  }

  ghost predicate AllGood(v: Surface, units: seq<Unit>) {
    forall i :: 0 <= i < |units| ==> GoodUnit(v, units[i])
  }

  function Rename(from: Surface, to: Surface, units: seq<Unit>): (r: seq<Unit>)
    requires AllGood(from, units)
    ensures |r| == |units|
    ensures forall i :: 0 <= i < |r| ==> r[i] == RenameUnit(from, to, units[i])
  {
    if units == [] then [] else [RenameUnit(from, to, units[0])] + Rename(from, to, units[1..])
  }

  lemma RenameBack(from: Surface, to: Surface, units: seq<Unit>)
    requires AllGood(from, units)
    ensures AllGood(to, Rename(from, to, units))
    ensures Rename(to, from, Rename(from, to, units)) == units
  {
    hide GoodUnit, RenameUnit;
    var r := Rename(from, to, units);
    forall i | 0 <= i < |units|
      ensures GoodUnit(to, r[i]) && RenameUnit(to, from, r[i]) == units[i]
    {
      RenameUnitKeeps(from, to, units[i]);
    }
  }

  lemma {:induction false} GoodUnitsAll(v: Surface, units: seq<Unit>, atEnd: bool)
    requires GoodUnits(v, units, atEnd)
    ensures AllGood(v, units)
  {
    hide GoodUnit, ClosedUnit, OpenUnit;
    if units != [] {
      GoodUnitsAll(v, units[1..], atEnd);
      forall i | 0 <= i < |units|
        ensures GoodUnit(v, units[i])
      {
        if i > 0 { assert units[i] == units[1..][i - 1]; }
      }
    }
  }

  // ---------------------------------------------------------------------
  // Reordering clauses

  // Version 2 places contract clauses first, the effect row next, the measure last.
  function Class(k: Kind): int {
    match k
    case Req => 0
    case Ens => 0
    case Inv => 0
    case Fx => 1
    case Dec => 2
  }

  function Keep(units: seq<Unit>, classes: set<int>): seq<Unit> {
    if units == [] then []
    else if Class(units[0].kind) in classes then [units[0]] + Keep(units[1..], classes)
    else Keep(units[1..], classes)
  }

  function Order3(units: seq<Unit>): seq<Unit> {
    Keep(units, {1}) + Keep(units, {0, 2})
  }

  function Order2(units: seq<Unit>): seq<Unit> {
    Keep(units, {0}) + Keep(units, {1}) + Keep(units, {2})
  }

  // Already in version 2 order: (req | ens | inv)* fx* dec*.
  predicate Ordered(units: seq<Unit>) {
    forall i, j :: 0 <= i < j < |units| ==> Class(units[i].kind) <= Class(units[j].kind)
  }

  lemma {:induction false} KeepConcat(a: seq<Unit>, b: seq<Unit>, cs: set<int>)
    ensures Keep(a + b, cs) == Keep(a, cs) + Keep(b, cs)
  {
    if a == [] {
      assert a + b == b;
    } else {
      assert (a + b)[1..] == a[1..] + b;
      KeepConcat(a[1..], b, cs);
    }
  }

  lemma {:induction false} KeepKeep(a: seq<Unit>, cs: set<int>, ds: set<int>)
    ensures Keep(Keep(a, cs), ds) == Keep(a, cs * ds)
  {
    if a != [] {
      KeepKeep(a[1..], cs, ds);
      if Class(a[0].kind) in cs {
        assert ([a[0]] + Keep(a[1..], cs))[1..] == Keep(a[1..], cs);
      }
    }
  }

  // Moving rows to the front loses nothing that version 2 order needs.
  lemma Order2AfterOrder3(units: seq<Unit>)
    ensures Order2(Order3(units)) == Order2(units)
  {
    forall c | c in {0, 1, 2}
      ensures Keep(Order3(units), {c}) == Keep(units, {c})
    {
      KeepConcat(Keep(units, {1}), Keep(units, {0, 2}), {c});
      KeepKeep(units, {1}, {c});
      KeepKeep(units, {0, 2}, {c});
      KeepNone(units);
      assert {1} * {c} == if c == 1 then {c} else {};
      assert {0, 2} * {c} == if c == 1 then {} else {c};
    }
  }

  lemma {:induction false} KeepNone(units: seq<Unit>)
    ensures Keep(units, {}) == []
  {
    if units != [] { KeepNone(units[1..]); }
  }

  lemma {:induction false} KeepMembers(units: seq<Unit>, cs: set<int>)
    ensures forall i :: 0 <= i < |Keep(units, cs)| ==> Class(Keep(units, cs)[i].kind) in cs && Keep(units, cs)[i] in units
  {
    if units != [] {
      var k := Keep(units[1..], cs);
      KeepMembers(units[1..], cs);
      forall i | 0 <= i < |Keep(units, cs)|
        ensures Class(Keep(units, cs)[i].kind) in cs && Keep(units, cs)[i] in units
      {
        if Class(units[0].kind) in cs && i > 0 { assert Keep(units, cs)[i] == k[i - 1]; }
      }
    }
  }

  lemma KeepGood(v: Surface, units: seq<Unit>, cs: set<int>)
    requires AllGood(v, units)
    ensures AllGood(v, Keep(units, cs))
  {
    KeepMembers(units, cs);
  }

  lemma {:induction false} KeepRename(from: Surface, to: Surface, units: seq<Unit>, cs: set<int>)
    requires AllGood(from, units)
    ensures AllGood(from, Keep(units, cs))
    ensures Keep(Rename(from, to, units), cs) == Rename(from, to, Keep(units, cs))
  {
    KeepGood(from, units, cs);
    hide GoodUnit;
    if units != [] {
      KeepRename(from, to, units[1..], cs);
      assert Rename(from, to, units)[1..] == Rename(from, to, units[1..]);
      RenameUnitKeeps(from, to, units[0]);
    }
  }

  lemma RenameConcat(from: Surface, to: Surface, a: seq<Unit>, b: seq<Unit>)
    requires AllGood(from, a) && AllGood(from, b)
    ensures AllGood(from, a + b) && Rename(from, to, a + b) == Rename(from, to, a) + Rename(from, to, b)
  {
    hide GoodUnit, RenameUnit;
  }

  // Reordering commutes with renaming.
  lemma OrderRename(from: Surface, to: Surface, units: seq<Unit>)
    requires AllGood(from, units)
    ensures AllGood(from, Order2(units)) && AllGood(from, Order3(units))
    ensures Order2(Rename(from, to, units)) == Rename(from, to, Order2(units))
  {
    hide GoodUnit, RenameUnit, Keep;
    KeepRename(from, to, units, {0});
    KeepRename(from, to, units, {1});
    KeepRename(from, to, units, {2});
    KeepGood(from, units, {0, 2});
    RenameConcat(from, to, Keep(units, {0}), Keep(units, {1}));
    RenameConcat(from, to, Keep(units, {0}) + Keep(units, {1}), Keep(units, {2}));
  }

  lemma {:induction false} OrderedIsFixed(units: seq<Unit>)
    requires Ordered(units)
    ensures Order2(units) == units
  {
    if units != [] {
      var rest := units[1..];
      forall i, j | 0 <= i < j < |rest|
        ensures Class(rest[i].kind) <= Class(rest[j].kind)
      {
        assert Class(units[i + 1].kind) <= Class(units[j + 1].kind);
      }
      OrderedIsFixed(rest);
      var c := Class(units[0].kind);
      forall i | 0 <= i < |rest|
        ensures c <= Class(rest[i].kind)
      {
        assert rest[i] == units[i + 1];
      }
      if c >= 1 { KeepAbsent(rest, {0}, c); }
      if c >= 2 { KeepAbsent(rest, {1}, c); }
      assert units == [units[0]] + rest;
    }
  }

  lemma {:induction false} KeepAbsent(units: seq<Unit>, cs: set<int>, c: int)
    requires (forall i :: 0 <= i < |units| ==> c <= Class(units[i].kind)) && forall x :: x in cs ==> x < c
    ensures Keep(units, cs) == []
  {
    if units != [] { KeepAbsent(units[1..], cs, c); }
  }

  lemma {:induction false} KeepEmpty(units: seq<Unit>, cs: set<int>)
    requires Keep(units, cs) == []
    ensures forall i :: 0 <= i < |units| ==> Class(units[i].kind) !in cs
  {
    if units != [] {
      KeepEmpty(units[1..], cs);
      forall i | 0 <= i < |units|
        ensures Class(units[i].kind) !in cs
      {
        if i > 0 { assert units[i] == units[1..][i - 1]; }
      }
    }
  }
}

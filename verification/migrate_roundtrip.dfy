/** When `to_v2(to_v3(x)) == x`. */
module MigrateRoundTrip {
  import opened ClauseText
  import opened TrailingInvariant
  import opened ClauseUnits
  import opened Migrate
  import opened MigrateFiles

  // ---------------------------------------------------------------------
  // One item there and back

  ghost function ThereAndBack(item: Item): Item {
    match item
    case Plain(line) =>
      Plain(Substitute(Word(V3, Inv), Word(V2, Inv), Substitute(Word(V2, Inv), Word(V3, Inv), line)))
    case Clauses(units) => Clauses(Order2(units))
  }

  lemma RunThereAndBack(units: seq<Unit>)
    requires AllGood(V2, units)
    ensures AllGood(V3, RunToV3(units)) && RunToV2(RunToV3(units)) == Order2(units)
  {
    hide GoodUnit, RenameUnit, Keep, Rename;
    OrderRename(V2, V3, units);
    var ordered := Order3(units);
    RenameBack(V2, V3, ordered);
    OrderRename(V2, V3, ordered);
    Order2AfterOrder3(units);
    RenameBack(V2, V3, Order2(units));
  }

  ghost predicate ItemReversible(item: Item) {
    match item
    case Plain(line) => NoTrailing(Word(V3, Inv), line)
    case Clauses(units) => Ordered(units)
  }

  lemma {:induction false} FlatConcat(a: seq<Unit>, b: seq<Unit>)
    ensures Flat(a + b) == Flat(a) + Flat(b)
  {
    if a == [] {
      assert a + b == b;
    } else {
      FlatConcat(a[1..], b);
      assert (a + b)[1..] == a[1..] + b;
      assert Flat(a + b) == a[0].lines + Flat(a[1..] + b);
    }
  }

  lemma {:induction false} Order2Length(units: seq<Unit>)
    ensures |Flat(Keep(units, {0}))| + |Flat(Keep(units, {1}))| + |Flat(Keep(units, {2}))| == |Flat(units)|
  {
    if units != [] {
      Order2Length(units[1..]);
      forall c: int
        ensures |Flat([units[0]] + Keep(units[1..], {c}))| == |units[0].lines| + |Flat(Keep(units[1..], {c}))|
      {
        FlatCons(units[0], Keep(units[1..], {c}));
      }
    }
  }

  lemma ThereAndBackLength(item: Item)
    ensures |Text(ThereAndBack(item))| == |Text(item)|
  {
    if item.Clauses? {
      var units := item.units;
      FlatConcat(Keep(units, {0}), Keep(units, {1}));
      FlatConcat(Keep(units, {0}) + Keep(units, {1}), Keep(units, {2}));
      Order2Length(units);
    }
  }

  // The first clause of version 2 order, when it is not the run's first.
  lemma EarlierClass(units: seq<Unit>, c: int)
    requires units != [] && AllGood(V2, units) && c in {0, 1} && c < Class(units[0].kind)
    requires Keep(units[1..], {c}) != [] && (c == 1 ==> Keep(units[1..], {0}) == [])
    ensures Flat(Order2(units)) != Flat(units)
  {
    var kept := Keep(units[1..], {c});
    assert Keep(units, {c}) == kept;
    assert c == 1 ==> Keep(units, {0}) == [];
    KeepMembers(units, {c});
    var first := kept[0];
    assert Order2(units)[0] == first;
    hide Keep, Order2;
    assert first in units && GoodUnit(V2, first) && GoodUnit(V2, units[0]);
    assert Flat(Order2(units))[0] == first.lines[0];
    assert Flat(units)[0] == units[0].lines[0];
  }

  lemma SameHead(units: seq<Unit>)
    requires units != []
    requires forall c :: c in {0, 1} && c < Class(units[0].kind) ==> Keep(units[1..], {c}) == []
    ensures Order2(units) == [units[0]] + Order2(units[1..])
  {
    var u, rest := units[0], units[1..];
    KeepHead(u, rest, 0);
    KeepHead(u, rest, 1);
    KeepHead(u, rest, 2);
    assert units == [u] + rest;
    hide Keep;
    ConcatHead(u, Keep(rest, {0}), Keep(rest, {1}), Keep(rest, {2}));
  }

  lemma ConcatHead(u: Unit, a: seq<Unit>, b: seq<Unit>, c: seq<Unit>)
    ensures ([u] + a) + b + c == [u] + (a + b + c)
    ensures a == [] ==> a + ([u] + b) + c == [u] + (a + b + c)
    ensures a == [] && b == [] ==> a + b + ([u] + c) == [u] + (a + b + c)
  {
  }

  lemma KeepHead(u: Unit, rest: seq<Unit>, c: int)
    ensures Keep([u] + rest, {c}) == if Class(u.kind) == c then [u] + Keep(rest, {c}) else Keep(rest, {c})
  {
    assert ([u] + rest)[1..] == rest;
  }

  // If version 2 order does not change the text of a run, the run is in that order.
  lemma {:induction false} UnmovedIsOrdered(units: seq<Unit>)
    requires AllGood(V2, units) && Flat(Order2(units)) == Flat(units)
    ensures Ordered(units)
  {
    if units != [] {
      var rest, k := units[1..], Class(units[0].kind);
      if k >= 1 && Keep(rest, {0}) != [] {
        EarlierClass(units, 0);
      } else if k >= 2 && Keep(rest, {1}) != [] {
        EarlierClass(units, 1);
      } else {
        SameHead(units);
        FlatCons(units[0], Order2(rest));
        hide GoodUnit, Order2;
        assert AllGood(V2, rest) by {
          assert forall i :: 0 <= i < |rest| ==> rest[i] == units[i + 1];
        }
        assert Flat(units) == units[0].lines + Flat(rest);
        assert Flat(Order2(rest)) == Flat(rest) by {
          SamePrefix(units[0].lines, Flat(Order2(rest)), Flat(rest));
        }
        UnmovedIsOrdered(rest);
        if k >= 1 { KeepEmpty(rest, {0}); }
        if k >= 2 { KeepEmpty(rest, {1}); }
        OrderedCons(units);
      }
    }
  }

  lemma SamePrefix(a: seq<string>, b: seq<string>, c: seq<string>)
    requires a + b == a + c
    ensures b == c
  {
    assert (a + b)[|a|..] == b && (a + c)[|a|..] == c;
  }

  lemma SplitAtSame(a: seq<string>, b: seq<string>, c: seq<string>, d: seq<string>)
    requires |a| == |c| && a + b == c + d
    ensures b == d
  {
    assert (a + b)[|a|..] == b && (c + d)[|c|..] == d;
  }

  lemma OrderedCons(units: seq<Unit>)
    requires units != [] && Ordered(units[1..])
    requires forall i :: 0 <= i < |units| - 1 ==> Class(units[0].kind) <= Class(units[1..][i].kind)
    ensures Ordered(units)
  {
    forall i, j | 0 <= i < j < |units|
      ensures Class(units[i].kind) <= Class(units[j].kind)
    {
      assert units[j] == units[1..][j - 1];
      if i > 0 { assert units[i] == units[1..][i - 1]; }
    }
  }

  lemma ItemRestored(item: Item)
    requires GoodItem(V2, item)
    ensures Text(ThereAndBack(item)) == Text(item) <==> ItemReversible(item)
  {
    match item {
      case Plain(line) =>
        WordIsPlain(V2, Inv);
        WordIsPlain(V3, Inv);
        SubstituteBackExactly(Word(V2, Inv), Word(V3, Inv), line);
      case Clauses(units) =>
        hide GoodUnit, Keep, Flat;
        if Ordered(units) { OrderedIsFixed(units); }
        if Flat(Order2(units)) == Flat(units) { UnmovedIsOrdered(units); }
    }
  }

  // ---------------------------------------------------------------------
  // Files whose rows stay

  ghost function AllThereAndBack(items: seq<Item>): (r: seq<Item>)
    ensures |r| == |items| && forall i :: 0 <= i < |r| ==> r[i] == ThereAndBack(items[i])
  {
    seq(|items|, i requires 0 <= i < |items| => ThereAndBack(items[i]))
  }

  lemma ItemThereAndBack(item: Item)
    requires GoodItem(V2, item)
    ensures GoodItem(V3, ItemToV3(item)) && ItemToV2(ItemToV3(item)) == ThereAndBack(item)
  {
    hide Substitute, RunToV3, RunToV2, Order2;
    if item.Clauses? { RunThereAndBack(item.units); }
  }

  lemma {:induction false} SameTexts(a: seq<Item>, b: seq<Item>)
    requires |a| == |b| && forall i :: 0 <= i < |a| ==> |Text(a[i])| == |Text(b[i])|
    ensures Lines(a) == Lines(b) <==> forall i :: 0 <= i < |a| ==> Text(a[i]) == Text(b[i])
  {
    hide Text;
    if a != [] {
      SameTexts(a[1..], b[1..]);
      if Lines(a) == Lines(b) {
        assert Lines(a)[..|Text(a[0])|] == Text(a[0]) && Lines(a)[|Text(a[0])|..] == Lines(a[1..]);
        assert Lines(b)[..|Text(b[0])|] == Text(b[0]) && Lines(b)[|Text(b[0])|..] == Lines(b[1..]);
        forall i | 0 <= i < |a|
          ensures Text(a[i]) == Text(b[i])
        {
          if i > 0 { assert Text(a[1..][i - 1]) == Text(b[1..][i - 1]); }
        }
      }
      if forall i :: 0 <= i < |a| ==> Text(a[i]) == Text(b[i]) {
        forall i | 0 <= i < |a[1..]|
          ensures Text(a[1..][i]) == Text(b[1..][i])
        {
          assert Text(a[i + 1]) == Text(b[i + 1]);
        }
      }
    }
  }

  ghost predicate Reversible(items: seq<Item>) {
    forall i :: 0 <= i < |items| ==> ItemReversible(items[i])
  }

  lemma ItemsRestored(items: seq<Item>)
    requires GoodItems(V2, items)
    ensures Lines(AllThereAndBack(items)) == Lines(items) <==> Reversible(items)
  {
    hide Text, ThereAndBack, ItemReversible;
    forall i | 0 <= i < |items|
      ensures |Text(ThereAndBack(items[i]))| == |Text(items[i])|
      ensures Text(ThereAndBack(items[i])) == Text(items[i]) <==> ItemReversible(items[i])
    {
      ThereAndBackLength(items[i]);
      ItemRestored(items[i]);
    }
    SameTexts(AllThereAndBack(items), items);
  }

  // What going there and back produces, when rows stay.
  lemma ThereAndBackLines(lines: seq<string>)
    requires V2Only(ParseItems(V2, lines)) && RowsStay(ParseItems(V2, lines))
    ensures LinesToV2(LinesToV3(lines)) == Lines(AllThereAndBack(ParseItems(V2, lines)))
  {
    var items := ParseItems(V2, lines);
    ReparseFindsSameUnits(lines);
    hide ThereAndBack, ItemToV3, ItemToV2, ParseItems, Parse, GoodItem, V2Only, RowsStay, Lines;
    var there := ItemsToV3(items);
    forall i | 0 <= i < |items|
      ensures GoodItem(V3, there[i]) && ItemToV2(there[i]) == ThereAndBack(items[i])
    {
      ItemThereAndBack(items[i]);
    }
    assert ItemsToV2(there) == AllThereAndBack(items);
  }

  lemma WhenRowsStay(lines: seq<string>)
    requires V2Only(ParseItems(V2, lines)) && RowsStay(ParseItems(V2, lines))
    ensures LinesToV2(LinesToV3(lines)) == lines <==> Reversible(ParseItems(V2, lines))
  {
    ThereAndBackLines(lines);
    ItemsRestored(ParseItems(V2, lines));
  }

  // ---------------------------------------------------------------------
  // Files whose last row is unclosed and moves

  ghost function Depth(d: int, ls: seq<string>): int
    decreases |ls|
  {
    if ls == [] then d else Depth(d + Delta(ls[0]), ls[1..])
  }

  lemma {:induction false} OpenThen(d: int, a: seq<string>, b: seq<string>)
    requires Open(d, a)
    ensures Depth(d, a) > 0
    ensures Closes(Depth(d, a), b) ==> Closes(d, a + b)
    ensures Open(Depth(d, a), b) ==> Open(d, a + b)
    decreases |a|
  {
    if a == [] {
      assert a + b == b;
    } else {
      OpenThen(d + Delta(a[0]), a[1..], b);
      assert (a + b)[1..] == a[1..] + b;
    }
  }

  // Below an outer depth, a closed clause's own lines cannot close the outer one before their end.
  lemma {:induction false} ThroughClause(outer: int, d: int, ls: seq<string>, more: seq<string>)
    requires outer > 0 && Closes(d, ls)
    ensures Depth(d, ls) <= 0
    ensures Closes(outer + Depth(d, ls), more) ==> Closes(outer + d, ls + more)
    ensures Open(outer + Depth(d, ls), more) ==> Open(outer + d, ls + more)
    decreases |ls|
  {
    if ls == [] {
      assert ls + more == more;
    } else {
      ThroughClause(outer, d + Delta(ls[0]), ls[1..], more);
      assert (ls + more)[1..] == ls[1..] + more;
    }
  }

  // The lines of k whole clauses, taken by an unclosed one.
  ghost predicate Swallows(d: int, units: seq<Unit>, k: nat) {
    && 1 <= k <= |units|
    && (Closes(d, Flat(units[..k])) || (k == |units| && Open(d, Flat(units))))
  }

  // An unclosed clause followed by closed ones takes whole clauses.
  lemma {:induction false} SwallowsWhole(d: int, units: seq<Unit>) returns (k: nat)
    requires d > 0 && units != [] && forall i :: 0 <= i < |units| ==> ClosedUnit(units[i])
    ensures Swallows(d, units, k)
    decreases |units|
  {
    var u, rest := units[0], units[1..];
    var e := d + Depth(Delta(u.lines[0]), u.lines[1..]);
    assert u.lines == [u.lines[0]] + u.lines[1..];
    if e <= 0 {
      k := 1;
      assert units[..1] == [u];
      FlatCons(u, []);
      SwallowStep(d, u, []);
    } else if rest == [] {
      k := 1;
      assert units == [u] && units[..1] == units;
      FlatCons(u, []);
      SwallowStep(d, u, []);
    } else {
      var j := SwallowsWhole(e, rest);
      k := j + 1;
      assert units[..k] == [u] + rest[..j] && units == [u] + rest;
      FlatCons(u, rest[..j]);
      FlatCons(u, rest);
      SwallowStep(d, u, Flat(rest[..j]));
      SwallowStep(d, u, Flat(rest));
    }
  }

  lemma SwallowStep(d: int, u: Unit, more: seq<string>)
    requires d > 0 && ClosedUnit(u)
    ensures var e := d + Depth(Delta(u.lines[0]), u.lines[1..]);
      && (Closes(e, more) ==> Closes(d, u.lines + more))
      && (Open(e, more) ==> Open(d, u.lines + more))
  {
    ThroughClause(d, Delta(u.lines[0]), u.lines[1..], more);
    assert (u.lines + more)[0] == u.lines[0] && (u.lines + more)[1..] == u.lines[1..] + more;
  }

  // Lines that are version 2 clause lines.
  ghost function Heads(ls: seq<string>): nat {
    if ls == [] then 0 else (if Match(V2, ls[0]).Some? then 1 else 0) + Heads(ls[1..])
  }

  lemma {:induction false} HeadsConcat(a: seq<string>, b: seq<string>)
    ensures Heads(a + b) == Heads(a) + Heads(b)
  {
    hide Match;
    if a == [] {
      assert a + b == b;
    } else {
      HeadsConcat(a[1..], b);
      assert (a + b)[1..] == a[1..] + b;
    }
  }

  ghost function HeadsOf(units: seq<Unit>): nat {
    Heads(Flat(units))
  }

  lemma HeadsOfConcat(a: seq<Unit>, b: seq<Unit>)
    ensures HeadsOf(a + b) == HeadsOf(a) + HeadsOf(b)
  {
    hide Flat, Heads;
    FlatConcat(a, b);
    HeadsConcat(Flat(a), Flat(b));
  }

  lemma HeadsOfCons(u: Unit, units: seq<Unit>)
    ensures HeadsOf([u] + units) == Heads(u.lines) + HeadsOf(units)
  {
    hide Flat, Heads;
    FlatCons(u, units);
    HeadsConcat(u.lines, Flat(units));
  }

  lemma {:induction false} HeadsOfParts(units: seq<Unit>)
    ensures HeadsOf(Keep(units, {0})) + HeadsOf(Keep(units, {2})) == HeadsOf(Keep(units, {0, 2}))
    ensures HeadsOf(Keep(units, {1})) + HeadsOf(Keep(units, {0, 2})) == HeadsOf(units)
  {
    hide HeadsOf, Heads;
    if units == [] {
      HeadsOfConcat([], []);
      assert [] + [] == units;
    } else {
      var u, rest := units[0], units[1..];
      HeadsOfParts(rest);
      assert units == [u] + rest;
      HeadsOfCons(u, rest);
      HeadsOfCons(u, Keep(rest, {0}));
      HeadsOfCons(u, Keep(rest, {1}));
      HeadsOfCons(u, Keep(rest, {2}));
      HeadsOfCons(u, Keep(rest, {0, 2}));
    }
  }

  lemma HeadsOfOrder2(units: seq<Unit>)
    ensures HeadsOf(Order2(units)) == HeadsOf(units)
  {
    hide HeadsOf, Heads, Keep;
    HeadsOfParts(units);
    HeadsOfConcat(Keep(units, {0}), Keep(units, {1}));
    HeadsOfConcat(Keep(units, {0}) + Keep(units, {1}), Keep(units, {2}));
  }

  lemma RenamedHead(u: Unit)
    requires GoodUnit(V2, u)
    ensures Heads(RenameUnit(V2, V3, u).lines) + 1 == Heads(u.lines)
  {
    RenameUnitKeeps(V2, V3, u);
    var r := RenameUnit(V2, V3, u);
    NotBothSurfaces(r.lines[0]);
    hide Match, RenameUnit;
    assert r.lines[1..] == u.lines[1..];
  }

  // Renamed clauses are no longer version 2 clauses.
  lemma {:induction false} RenamedHeads(units: seq<Unit>)
    requires AllGood(V2, units)
    ensures HeadsOf(Rename(V2, V3, units)) + |units| == HeadsOf(units)
  {
    hide HeadsOf, Heads, GoodUnit, RenameUnit;
    if units == [] {
      assert Rename(V2, V3, units) == units;
    } else {
      RenamedHeads(units[1..]);
      RenamedHead(units[0]);
      assert units == [units[0]] + units[1..];
      HeadsOfCons(units[0], units[1..]);
      HeadsOfCons(RenameUnit(V2, V3, units[0]), Rename(V2, V3, units[1..]));
    }
  }
}

/** Files that end in an unclosed effect row with other clauses in its run: the
    round trip never restores them. */
module MigrateExact {
  import opened ClauseText
  import opened ClauseUnits
  import opened Migrate
  import opened MigrateFiles
  import opened MigrateRoundTrip

  // ---------------------------------------------------------------------
  // An unclosed row that moves in front of other clauses swallows some of them

  lemma {:induction false} KeepAll(units: seq<Unit>, cs: set<int>)
    requires forall i :: 0 <= i < |units| ==> Class(units[i].kind) in cs
    ensures Keep(units, cs) == units
  {
    if units != [] {
      KeepAll(units[1..], cs);
      assert units == [units[0]] + units[1..];
    }
  }

  lemma {:induction false} KeepNoneOf(units: seq<Unit>, cs: set<int>)
    requires forall i :: 0 <= i < |units| ==> Class(units[i].kind) !in cs
    ensures Keep(units, cs) == []
  {
    if units != [] { KeepNoneOf(units[1..], cs); }
  }

  // The run as the rewritten text reads back: rows, the row with what it swallowed, the rest.
  ghost function Merged(rows: seq<Unit>, row: Unit, taken: seq<string>, rest: seq<Unit>): seq<Unit> {
    rows + [Unit(row.kind, row.lines + taken)] + rest
  }

  lemma MergedOrder(rows: seq<Unit>, row: Unit, taken: seq<string>, rest: seq<Unit>)
    requires row.kind == Fx && forall i :: 0 <= i < |rows| ==> rows[i].kind == Fx
    requires forall i :: 0 <= i < |rest| ==> Class(rest[i].kind) in {0, 2}
    ensures var m := Merged(rows, row, taken, rest);
      Order3(m) == m && Keep(m, {0, 2}) == rest
  {
    var front := rows + [Unit(row.kind, row.lines + taken)];
    KeepAll(front, {1});
    KeepNoneOf(front, {0, 2});
    KeepAll(rest, {0, 2});
    KeepNoneOf(rest, {1});
    hide Keep, Class;
    JoinedOrder(front, rest);
  }

  lemma JoinedOrder(front: seq<Unit>, rest: seq<Unit>)
    requires Keep(front, {1}) == front && Keep(front, {0, 2}) == []
    requires Keep(rest, {0, 2}) == rest && Keep(rest, {1}) == []
    ensures Order3(front + rest) == front + rest && Keep(front + rest, {0, 2}) == rest
  {
    hide Keep;
    KeepConcat(front, rest, {1});
    KeepConcat(front, rest, {0, 2});
  }

  lemma MergedUnit(v: Surface, row: Unit, taken: seq<string>)
    requires GoodUnit(v, row) && OpenUnit(row)
    ensures var u := Unit(row.kind, row.lines + taken);
      && GoodUnit(v, u)
      && (Closes(Depth(Delta(row.lines[0]), row.lines[1..]), taken) ==> ClosedUnit(u))
      && (Open(Depth(Delta(row.lines[0]), row.lines[1..]), taken) ==> OpenUnit(u))
  {
    hide Match;
    OpenThen(Delta(row.lines[0]), row.lines[1..], taken);
    var ls := row.lines + taken;
    assert ls[0] == row.lines[0] && ls[1..] == row.lines[1..] + taken;
  }

  lemma JoinShapes(v: Surface, rows: seq<Unit>, u: Unit, rest: seq<Unit>)
    requires AllGood(v, rows) && AllGood(v, rest) && GoodUnit(v, u)
    requires forall i :: 0 <= i < |rows| ==> ClosedUnit(rows[i])
    requires forall i :: 0 <= i < |rest| ==> ClosedUnit(rest[i])
    requires ClosedUnit(u) || (rest == [] && OpenUnit(u))
    ensures RunShape(v, rows + [u] + rest, true)
  {
    hide GoodUnit, ClosedUnit, OpenUnit;
    var m := rows + [u] + rest;
    forall i | 0 <= i < |m|
      ensures GoodUnit(v, m[i]) && (ClosedUnit(m[i]) || (i == |m| - 1 && OpenUnit(m[i])))
    {
      if i < |rows| {
        assert m[i] == rows[i];
      } else if i == |rows| {
        assert m[i] == u;
      } else {
        assert m[i] == rest[i - |rows| - 1];
      }
    }
  }

  lemma MergedShape(v: Surface, rows: seq<Unit>, row: Unit, taken: seq<string>, rest: seq<Unit>)
    requires AllGood(v, rows) && AllGood(v, rest) && GoodUnit(v, row) && OpenUnit(row)
    requires forall i :: 0 <= i < |rows| ==> ClosedUnit(rows[i])
    requires forall i :: 0 <= i < |rest| ==> ClosedUnit(rest[i])
    requires var d := Depth(Delta(row.lines[0]), row.lines[1..]);
      Closes(d, taken) || (rest == [] && Open(d, taken))
    ensures RunShape(v, Merged(rows, row, taken, rest), true)
  {
    hide GoodUnit, ClosedUnit, OpenUnit, Closes, Open, RunShape, AllGood;
    MergedUnit(v, row, taken);
    JoinShapes(v, rows, Unit(row.kind, row.lines + taken), rest);
  }

  lemma MergedRename(row: Unit, taken: seq<string>)
    requires GoodUnit(V2, row)
    ensures GoodUnit(V2, Unit(row.kind, row.lines + taken))
    ensures RenameUnit(V2, V3, Unit(row.kind, row.lines + taken)).lines == RenameUnit(V2, V3, row).lines + taken
  {
    hide Match, Render;
    var ls := row.lines + taken;
    assert ls[0] == row.lines[0] && ls[1..] == row.lines[1..] + taken;
  }

  lemma FlatRenamed(a: seq<Unit>, u: Unit, b: seq<Unit>)
    requires AllGood(V2, a) && GoodUnit(V2, u) && AllGood(V2, b)
    ensures AllGood(V2, a + [u] + b)
    ensures Flat(Rename(V2, V3, a + [u] + b))
         == Flat(Rename(V2, V3, a)) + (RenameUnit(V2, V3, u).lines + Flat(Rename(V2, V3, b)))
  {
    hide GoodUnit, RenameUnit, Flat;
    var r := RenameUnit(V2, V3, u);
    RenameConcat(V2, V3, [u], b);
    RenameConcat(V2, V3, a, [u] + b);
    assert a + [u] + b == a + ([u] + b);
    assert Rename(V2, V3, [u]) == [r];
    FlatCons(r, Rename(V2, V3, b));
    FlatConcat(Rename(V2, V3, a), [r] + Rename(V2, V3, b));
  }

  lemma RenameSlices(units: seq<Unit>, k: nat)
    requires AllGood(V2, units) && k <= |units|
    ensures AllGood(V2, units[..k]) && AllGood(V2, units[k..])
    ensures Rename(V2, V3, units[..k]) == Rename(V2, V3, units)[..k]
    ensures Rename(V2, V3, units[k..]) == Rename(V2, V3, units)[k..]
  {
    hide GoodUnit, RenameUnit, Rename;
  }

  lemma FlatSlices(units: seq<Unit>, k: nat)
    requires k <= |units|
    ensures Flat(units) == Flat(units[..k]) + Flat(units[k..])
  {
    hide Flat;
    assert units == units[..k] + units[k..];
    FlatConcat(units[..k], units[k..]);
  }

  lemma Regroup(a: seq<string>, r: seq<string>, t: seq<string>, b: seq<string>)
    ensures a + ((r + t) + b) == a + (r + (t + b))
  {
  }

  // The rewritten text of the moved run, read as the merged run's.
  lemma SameRewrittenText(rows: seq<Unit>, row: Unit, others: seq<Unit>, k: nat)
    requires AllGood(V2, rows) && GoodUnit(V2, row) && AllGood(V2, others) && k <= |others|
    ensures var taken := Flat(Rename(V2, V3, others)[..k]);
      var m := Merged(rows, row, taken, others[k..]);
      && AllGood(V2, m) && AllGood(V2, rows + [row] + others)
      && Flat(Rename(V2, V3, m)) == Flat(Rename(V2, V3, rows + [row] + others))
  {
    hide GoodUnit, RenameUnit, Flat, AllGood, Rename;
    var renamed := Rename(V2, V3, others);
    var taken := Flat(renamed[..k]);
    RenameSlices(others, k);
    FlatSlices(renamed, k);
    MergedRename(row, taken);
    FlatRenamed(rows, row, others);
    FlatRenamed(rows, Unit(row.kind, row.lines + taken), others[k..]);
    Regroup(Flat(Rename(V2, V3, rows)), RenameUnit(V2, V3, row).lines, taken, Flat(renamed[k..]));
  }

  lemma MergedHeads(rows: seq<Unit>, row: Unit, taken: seq<string>, rest: seq<Unit>)
    ensures HeadsOf(Merged(rows, row, taken, rest))
         == HeadsOf(rows) + Heads(row.lines) + Heads(taken) + HeadsOf(rest)
  {
    hide Heads, HeadsOf;
    var u := Unit(row.kind, row.lines + taken);
    HeadsConcat(row.lines, taken);
    HeadsOfCons(u, rest);
    HeadsOfConcat(rows, [u] + rest);
    assert rows + [u] + rest == rows + ([u] + rest);
  }

  lemma HeadsOfFlat(units: seq<Unit>)
    ensures HeadsOf(units) == Heads(Flat(units))
  {
    hide Heads, Flat;
  }

  lemma TakenHeads(others: seq<Unit>, k: nat)
    requires AllGood(V2, others) && k <= |others|
    ensures Heads(Flat(Rename(V2, V3, others)[..k])) + k + HeadsOf(others[k..]) == HeadsOf(others)
  {
    hide GoodUnit, RenameUnit, Heads, HeadsOf, Rename, Flat;
    RenameSlices(others, k);
    RenamedHeads(others[..k]);
    HeadsOfFlat(Rename(V2, V3, others)[..k]);
    assert others == others[..k] + others[k..];
    HeadsOfConcat(others[..k], others[k..]);
  }

  // The merged run has fewer version 2 clause lines.
  lemma FewerHeads(rows: seq<Unit>, row: Unit, others: seq<Unit>, k: nat)
    requires AllGood(V2, others) && k <= |others|
    ensures var taken := Flat(Rename(V2, V3, others)[..k]);
      HeadsOf(Merged(rows, row, taken, others[k..])) + k == HeadsOf(rows) + Heads(row.lines) + HeadsOf(others)
  {
    hide GoodUnit, AllGood, RenameUnit, Heads, HeadsOf, Rename, Flat, Merged;
    MergedHeads(rows, row, Flat(Rename(V2, V3, others)[..k]), others[k..]);
    TakenHeads(others, k);
  }

  lemma PartsClosed(units: seq<Unit>, cs: set<int>)
    requires RunShape(V2, units, true) && units != []
    ensures var kept := Keep(units[..|units| - 1], cs);
      && AllGood(V2, kept)
      && forall i :: 0 <= i < |kept| ==> Class(kept[i].kind) in cs && ClosedUnit(kept[i])
  {
    var init := units[..|units| - 1];
    KeepMembers(init, cs);
    hide GoodUnit, ClosedUnit, OpenUnit, Keep;
    assert forall i :: 0 <= i < |init| ==> init[i] == units[i];
  }

  lemma MovedRunHeads(units: seq<Unit>, rows: seq<Unit>, row: Unit)
    requires Keep(units, {1}) == rows + [row]
    ensures HeadsOf(rows) + Heads(row.lines) + HeadsOf(Keep(units, {0, 2})) == HeadsOf(units)
  {
    assert HeadsOf([row]) == Heads(row.lines) by {
      FlatCons(row, []);
      assert [row] + [] == [row] && row.lines + Flat([]) == row.lines;
    }
    hide Heads, HeadsOf, Keep;
    HeadsOfParts(units);
    HeadsOfConcat(rows, [row]);
  }

  lemma KeepSnoc(init: seq<Unit>, row: Unit)
    requires row.kind == Fx
    ensures Keep(init + [row], {1}) == Keep(init, {1}) + [row] && Keep(init + [row], {0, 2}) == Keep(init, {0, 2})
  {
    KeepConcat(init, [row], {1});
    KeepConcat(init, [row], {0, 2});
  }

  lemma MovedRunParts(units: seq<Unit>) returns (rows: seq<Unit>, row: Unit, others: seq<Unit>)
    requires RunShape(V2, units, true) && !LastStays(units)
    ensures row.kind == Fx && OpenUnit(row) && GoodUnit(V2, row)
    ensures AllGood(V2, rows) && AllGood(V2, others) && others != []
    ensures Order3(units) == rows + [row] + others
    ensures forall i :: 0 <= i < |rows| ==> rows[i].kind == Fx && ClosedUnit(rows[i])
    ensures forall i :: 0 <= i < |others| ==> Class(others[i].kind) in {0, 2} && ClosedUnit(others[i])
    ensures HeadsOf(rows) + Heads(row.lines) + HeadsOf(others) == HeadsOf(units)
  {
    hide GoodUnit, ClosedUnit, OpenUnit, Heads, HeadsOf, Keep;
    var init := units[..|units| - 1];
    row := units[|units| - 1];
    rows, others := Keep(init, {1}), Keep(init, {0, 2});
    PartsClosed(units, {1});
    PartsClosed(units, {0, 2});
    assert units == init + [row];
    KeepSnoc(init, row);
    MovedRunHeads(units, rows, row);
  }

  // The text an unclosed moved row produces is also the text of a run whose row
  // stays, with fewer clauses.
  lemma MovedRun(units: seq<Unit>) returns (m: seq<Unit>)
    requires RunShape(V2, units, true) && !LastStays(units)
    ensures m != [] && RunShape(V2, m, true) && LastStays(m)
    ensures Flat(RunToV3(m)) == Flat(RunToV3(units))
    ensures HeadsOf(m) < HeadsOf(units)
  {
    var rows, row, others := MovedRunParts(units);
    var renamed := Rename(V2, V3, others);
    var d := Depth(Delta(row.lines[0]), row.lines[1..]);
    OpenThen(Delta(row.lines[0]), row.lines[1..], []);
    forall i | 0 <= i < |renamed|
      ensures ClosedUnit(renamed[i])
    {
      RenameUnitKeeps(V2, V3, others[i]);
    }
    var k := SwallowsWhole(d, renamed);
    var taken := Flat(renamed[..k]);
    m := Merged(rows, row, taken, others[k..]);
    if k == |renamed| { assert renamed[..k] == renamed && others[k..] == []; }
    hide GoodUnit, ClosedUnit, OpenUnit, Closes, Open, HeadsOf, Heads, RenameUnit;
    MergedShape(V2, rows, row, taken, others[k..]);
    MergedOrder(rows, row, taken, others[k..]);
    SameRewrittenText(rows, row, others, k);
    FewerHeads(rows, row, others, k);
    MergedStays(rows, row, taken, others[k..]);
  }

  lemma MergedStays(rows: seq<Unit>, row: Unit, taken: seq<string>, rest: seq<Unit>)
    requires row.kind == Fx && forall i :: 0 <= i < |rows| ==> rows[i].kind == Fx
    requires forall i :: 0 <= i < |rest| ==> Class(rest[i].kind) in {0, 2}
    ensures LastStays(Merged(rows, row, taken, rest))
  {
    MergedOrder(rows, row, taken, rest);
    var m := Merged(rows, row, taken, rest);
    if rest != [] { assert m[|m| - 1] == rest[|rest| - 1]; }
  }

  // ---------------------------------------------------------------------
  // The exact condition on lines

  lemma {:induction false} LinesConcat(a: seq<Item>, b: seq<Item>)
    ensures Lines(a + b) == Lines(a) + Lines(b)
  {
    hide Text, Lines;
    if a == [] {
      assert a + b == b;
      LinesOfNone();
      assert [] + Lines(b) == Lines(b);
    } else {
      LinesConcat(a[1..], b);
      assert (a + b)[0] == a[0] && (a + b)[1..] == a[1..] + b;
      LinesFirst(a);
      LinesFirst(a + b);
      assert Text(a[0]) + (Lines(a[1..]) + Lines(b)) == (Text(a[0]) + Lines(a[1..])) + Lines(b);
    }
  }

  lemma LinesOfNone()
    ensures Lines([]) == []
  {
  }

  lemma LinesFirst(items: seq<Item>)
    requires items != []
    ensures Lines(items) == Text(items[0]) + Lines(items[1..])
  {
  }

  lemma LinesSnoc(a: seq<Item>, item: Item)
    ensures Lines(a + [item]) == Lines(a) + Text(item)
  {
    hide Text;
    LinesConcat(a, [item]);
    assert Lines([item]) == Text(item) + Lines([item][1..]);
  }

  // The last run of a file may be replaced by any well-formed run.
  lemma {:induction false} ReplaceLast(front: seq<Item>, a: seq<Unit>, b: seq<Unit>)
    requires Well(V2, front + [Clauses(a)]) && b != [] && GoodUnits(V2, b, true)
    ensures Well(V2, front + [Clauses(b)])
  {
    hide GoodUnits, Match;
    var old_, new_ := front + [Clauses(a)], front + [Clauses(b)];
    if front != [] {
      assert old_[1..] == front[1..] + [Clauses(a)] && new_[1..] == front[1..] + [Clauses(b)];
      ReplaceLast(front[1..], a, b);
      assert new_[0] == old_[0];
      if |front| > 1 { assert new_[1] == old_[1]; }
    } else {
      assert old_[1..] == [] && new_[1..] == [];
    }
  }

  lemma ItemsToV3Snoc(front: seq<Item>, item: Item)
    requires GoodItems(V2, front + [item])
    ensures GoodItems(V2, front) && GoodItem(V2, item)
    ensures ItemsToV3(front + [item]) == ItemsToV3(front) + [ItemToV3(item)]
  {
    hide ItemToV3, GoodItem;
    var all := front + [item];
    assert forall i :: 0 <= i < |front| ==> front[i] == all[i];
    assert all[|front|] == item;
  }

  lemma {:induction false} WellLast(front: seq<Item>, units: seq<Unit>)
    requires Well(V2, front + [Clauses(units)])
    ensures units != [] && GoodUnits(V2, units, true)
  {
    hide GoodUnits, Match;
    var all := front + [Clauses(units)];
    if front != [] {
      assert all[1..] == front[1..] + [Clauses(units)];
      WellLast(front[1..], units);
    } else {
      assert all[1..] == [];
    }
  }

  // A file whose last row is unclosed and moves has the rewritten text of another
  // file, whose rows stay and whose last run has fewer clauses.
  lemma ReadBack(front: seq<Item>, units: seq<Unit>) returns (m: seq<Unit>)
    requires Well(V2, front + [Clauses(units)]) && GoodItems(V2, front + [Clauses(units)]) && !LastStays(units)
    ensures Well(V2, front + [Clauses(m)]) && GoodItems(V2, front + [Clauses(m)]) && LastStays(m)
    ensures Lines(ItemsToV3(front + [Clauses(m)])) == Lines(ItemsToV3(front + [Clauses(units)]))
    ensures HeadsOf(m) < HeadsOf(units)
  {
    hide Well, GoodUnit, GoodUnits, LastStays, Flat, RunShape, HeadsOf, Lines, ItemsToV3, RunToV3;
    WellLast(front, units);
    RunShapeOf(V2, units, true);
    m := MovedRun(units);
    RunShapeGood(V2, m, true);
    ReplaceLast(front, units, m);
    WellIsGood(V2, front + [Clauses(m)]);
    ItemsToV3Snoc(front, Clauses(units));
    ItemsToV3Snoc(front, Clauses(m));
    LinesSnoc(ItemsToV3(front), Clauses(RunToV3(units)));
    LinesSnoc(ItemsToV3(front), Clauses(RunToV3(m)));
  }

  lemma {:induction false} ThereAndBackLengths(items: seq<Item>)
    ensures |Lines(AllThereAndBack(items))| == |Lines(items)|
  {
    hide Text, ThereAndBack;
    if items != [] {
      ThereAndBackLengths(items[1..]);
      ThereAndBackLength(items[0]);
      var r := AllThereAndBack(items);
      assert r[1..] == AllThereAndBack(items[1..]);
    }
  }

  // Fewer clauses cannot come back as the text with more.
  lemma FewerDiffers(front: seq<Item>, units: seq<Unit>, m: seq<Unit>)
    requires HeadsOf(m) < HeadsOf(units)
    ensures Lines(AllThereAndBack(front + [Clauses(m)])) != Lines(front + [Clauses(units)])
  {
    hide Text, Order2;
    assert AllThereAndBack(front + [Clauses(m)]) == AllThereAndBack(front) + [Clauses(Order2(m))];
    hide ThereAndBack, AllThereAndBack, Lines, Flat, Heads;
    ThereAndBackLengths(front);
    HeadsOfOrder2(m);
    LinesSnoc(AllThereAndBack(front), Clauses(Order2(m)));
    LinesSnoc(front, Clauses(units));
    TextOfRun(Order2(m));
    TextOfRun(units);
    if Lines(AllThereAndBack(front)) + Flat(Order2(m)) == Lines(front) + Flat(units) {
      SplitAtSame(Lines(AllThereAndBack(front)), Flat(Order2(m)), Lines(front), Flat(units));
    }
  }

  lemma TextOfRun(units: seq<Unit>)
    ensures Text(Clauses(units)) == Flat(units)
  {
  }

  // Of a division of a file, parsing its text finds it again.
  lemma Reparse(items: seq<Item>)
    requires Well(V2, items)
    ensures ParseItems(V2, Lines(items)) == items
  {
    hide Well, Lines;
    ParseWell(V2, items);
  }

  // An unclosed row that moves loses the file: some clause does not come back.
  lemma NotRestored(lines: seq<string>)
    requires V2Only(ParseItems(V2, lines)) && !RowsStay(ParseItems(V2, lines))
    ensures LinesToV2(LinesToV3(lines)) != lines
  {
    hide ParseItems, LastStays, Lines, Well, GoodItems, ItemsToV3, HeadsOf, LinesToV2;
    var items := ParseItems(V2, lines);
    var front, units := items[..|items| - 1], items[|items| - 1].units;
    assert items == front + [Clauses(units)];
    var m := ReadBack(front, units);
    var other := front + [Clauses(m)];
    Reparse(other);
    assert V2Only(other) && RowsStay(other);
    ThereAndBackLines(Lines(other));
    FewerDiffers(front, units, m);
  }
}

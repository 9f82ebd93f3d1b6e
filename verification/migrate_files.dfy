/** Whole files through the rewrite: re-parsing the result, and the exact
    condition under which going forth and back restores every byte. */
module MigrateFiles {
  import opened ClauseText
  import opened TrailingInvariant
  import opened ClauseUnits
  import opened Migrate

  // ---------------------------------------------------------------------
  // The two directions on items

  ghost predicate GoodItem(v: Surface, item: Item) {
    item.Clauses? ==> AllGood(v, item.units)
  }

  ghost predicate GoodItems(v: Surface, items: seq<Item>) {
    forall i :: 0 <= i < |items| ==> GoodItem(v, items[i])
  }

  // Clause runs: the effect row to the front, everything renamed in place.
  function RunToV3(units: seq<Unit>): seq<Unit>
    requires AllGood(V2, units)
  {
    OrderRename(V2, V3, units);
    Rename(V2, V3, Order3(units))
  }

  // Clause runs back: contract clauses, then rows, then measures.
  function RunToV2(units: seq<Unit>): seq<Unit>
    requires AllGood(V3, units)
  {
    OrderRename(V3, V2, units);
    Rename(V3, V2, Order2(units))
  }

  function ItemToV3(item: Item): Item
    requires GoodItem(V2, item)
  {
    match item
    case Plain(line) => Plain(Substitute(Word(V2, Inv), Word(V3, Inv), line))
    case Clauses(units) => Clauses(RunToV3(units))
  }

  function ItemToV2(item: Item): Item
    requires GoodItem(V3, item)
  {
    match item
    case Plain(line) => Plain(Substitute(Word(V3, Inv), Word(V2, Inv), line))
    case Clauses(units) => Clauses(RunToV2(units))
  }

  function ItemsToV3(items: seq<Item>): (r: seq<Item>)
    requires GoodItems(V2, items)
    ensures |r| == |items| && forall i :: 0 <= i < |r| ==> r[i] == ItemToV3(items[i])
  {
    if items == [] then [] else [ItemToV3(items[0])] + ItemsToV3(items[1..])
  }

  function ItemsToV2(items: seq<Item>): (r: seq<Item>)
    requires GoodItems(V3, items)
    ensures |r| == |items| && forall i :: 0 <= i < |r| ==> r[i] == ItemToV2(items[i])
  {
    if items == [] then [] else [ItemToV2(items[0])] + ItemsToV2(items[1..])
  }

  lemma {:induction false} WellIsGood(v: Surface, items: seq<Item>)
    requires Well(v, items)
    ensures GoodItems(v, items)
  {
    hide GoodUnits;
    if items != [] {
      WellIsGood(v, items[1..]);
      if items[0].Clauses? { GoodUnitsAll(v, items[0].units, items[1..] == []); }
      forall i | 0 <= i < |items|
        ensures GoodItem(v, items[i])
      {
        if i > 0 { assert items[i] == items[1..][i - 1]; }
      }
    }
  }

  function ParseItems(v: Surface, lines: seq<string>): (items: seq<Item>)
    ensures Well(v, items) && GoodItems(v, items) && Lines(items) == lines
  {
    ParseSound(v, lines);
    WellIsGood(v, Parse(v, lines));
    Parse(v, lines)
  }

  // `_lines_to_v3` and `_lines_to_v2`
  function LinesToV3(lines: seq<string>): seq<string> {
    Lines(ItemsToV3(ParseItems(V2, lines)))
  }

  function LinesToV2(lines: seq<string>): seq<string> {
    Lines(ItemsToV2(ParseItems(V3, lines)))
  }

  // ---------------------------------------------------------------------
  // Re-parsing the rewritten text

  // The shape of a well-formed run: all clauses closed but possibly the last of the file.
  ghost predicate RunShape(v: Surface, units: seq<Unit>, atEnd: bool) {
    && AllGood(v, units)
    && forall i :: 0 <= i < |units| ==>
         ClosedUnit(units[i]) || (atEnd && i == |units| - 1 && OpenUnit(units[i]))
  }

  lemma {:induction false} RunShapeOf(v: Surface, units: seq<Unit>, atEnd: bool)
    requires GoodUnits(v, units, atEnd)
    ensures RunShape(v, units, atEnd)
  {
    hide GoodUnit, ClosedUnit, OpenUnit;
    if units != [] {
      RunShapeOf(v, units[1..], atEnd);
      GoodUnitsAll(v, units, atEnd);
      forall i | 0 <= i < |units|
        ensures ClosedUnit(units[i]) || (atEnd && i == |units| - 1 && OpenUnit(units[i]))
      {
        if i > 0 { assert units[i] == units[1..][i - 1]; }
      }
    }
  }

  lemma {:induction false} RunShapeGood(v: Surface, units: seq<Unit>, atEnd: bool)
    requires RunShape(v, units, atEnd)
    ensures GoodUnits(v, units, atEnd)
  {
    hide GoodUnit, ClosedUnit, OpenUnit;
    if units != [] {
      var rest := units[1..];
      assert forall i :: 0 <= i < |rest| ==> rest[i] == units[i + 1];
      RunShapeGood(v, rest, atEnd);
    }
  }

  // The row keeps its place at the end of the file: the last clause is closed,
  // or is not a row, or the run holds rows only.
  predicate LastStays(units: seq<Unit>) {
    units == [] || ClosedUnit(units[|units| - 1]) || units[|units| - 1].kind != Fx || Keep(units, {0, 2}) == []
  }

  // Order3 keeps an unclosed last clause last.
  lemma Order3KeepsLast(units: seq<Unit>) returns (front: seq<Unit>)
    requires units != [] && LastStays(units) && !ClosedUnit(units[|units| - 1])
    ensures Order3(units) == front + [units[|units| - 1]]
    ensures forall i :: 0 <= i < |front| ==> front[i] in units[..|units| - 1]
  {
    var n := |units| - 1;
    var init, u := units[..n], units[n];
    assert units == init + [u];
    KeepConcat(init, [u], {1});
    KeepConcat(init, [u], {0, 2});
    KeepMembers(init, {1});
    KeepMembers(init, {0, 2});
    if u.kind == Fx {
      front := Keep(init, {1});
    } else {
      front := Keep(init, {1}) + Keep(init, {0, 2});
    }
  }

  lemma MembersShape(v: Surface, units: seq<Unit>, part: seq<Unit>, atEnd: bool)
    requires RunShape(v, units, atEnd) && forall i :: 0 <= i < |part| ==> part[i] in units
    ensures AllGood(v, part)
    ensures units == [] || ClosedUnit(units[|units| - 1]) ==> forall i :: 0 <= i < |part| ==> ClosedUnit(part[i])
  {
    hide GoodUnit, ClosedUnit, OpenUnit;
  }

  lemma InitShape(v: Surface, units: seq<Unit>, part: seq<Unit>, atEnd: bool)
    requires units != [] && RunShape(v, units, atEnd)
    requires forall i :: 0 <= i < |part| ==> part[i] in units[..|units| - 1]
    ensures RunShape(v, part + [units[|units| - 1]], atEnd)
  {
    hide GoodUnit, ClosedUnit, OpenUnit;
    var init := units[..|units| - 1];
    assert RunShape(v, init, atEnd) && forall i :: 0 <= i < |init| ==> ClosedUnit(init[i]);
    MembersShape(v, init, part, atEnd);
  }

  lemma Order3Shape(v: Surface, units: seq<Unit>, atEnd: bool)
    requires RunShape(v, units, atEnd) && LastStays(units)
    ensures RunShape(v, Order3(units), atEnd)
  {
    if units != [] && !ClosedUnit(units[|units| - 1]) {
      var front := Order3KeepsLast(units);
      InitShape(v, units, front, atEnd);
    } else {
      KeepMembers(units, {1});
      KeepMembers(units, {0, 2});
      hide GoodUnit, ClosedUnit, OpenUnit, Keep;
      MembersShape(v, units, Order3(units), atEnd);
    }
  }

  lemma RenameShape(from: Surface, to: Surface, units: seq<Unit>, atEnd: bool)
    requires RunShape(from, units, atEnd)
    ensures RunShape(to, Rename(from, to, units), atEnd)
  {
    hide GoodUnit, ClosedUnit, OpenUnit, RenameUnit;
    RenameBack(from, to, units);
    forall i | 0 <= i < |units|
      ensures ClosedUnit(RenameUnit(from, to, units[i])) == ClosedUnit(units[i])
      ensures OpenUnit(RenameUnit(from, to, units[i])) == OpenUnit(units[i])
    {
      RenameUnitKeeps(from, to, units[i]);
    }
  }

  lemma RunToV3Shape(units: seq<Unit>, atEnd: bool)
    requires RunShape(V2, units, atEnd) && LastStays(units)
    ensures RunShape(V3, RunToV3(units), atEnd)
  {
    hide Order3, Rename, LastStays;
    OrderRename(V2, V3, units);
    Order3Shape(V2, units, atEnd);
    RenameShape(V2, V3, Order3(units), atEnd);
  }

  // A version 2 source: no plain line is a version 3 clause or effect row.
  predicate V2Only(items: seq<Item>) {
    forall i :: 0 <= i < |items| && items[i].Plain? ==> Match(V3, items[i].line).None?
  }

  predicate RowsStay(items: seq<Item>) {
    items != [] && items[|items| - 1].Clauses? ==> LastStays(items[|items| - 1].units)
  }

  lemma OrderNonempty(units: seq<Unit>)
    requires units != [] && AllGood(V2, units)
    ensures RunToV3(units) != []
  {
    OrderRename(V2, V3, units);
    var c := Class(units[0].kind);
    assert c in {1} || c in {0, 2};
  }

  lemma ItemsToV3Cons(items: seq<Item>)
    requires GoodItems(V2, items) && items != []
    ensures GoodItems(V2, items[1..])
    ensures ItemsToV3(items)[1..] == ItemsToV3(items[1..]) && ItemsToV3(items)[0] == ItemToV3(items[0])
  {
    hide ItemToV3, GoodItem;
    assert forall i :: 0 <= i < |items[1..]| ==> items[1..][i] == items[i + 1];
  }

  // The rewritten text of a version 2 source divides into exactly the rewritten items.
  lemma {:induction false} ForwardWell(items: seq<Item>)
    requires Well(V2, items) && GoodItems(V2, items) && V2Only(items) && RowsStay(items)
    ensures Well(V3, ItemsToV3(items))
  {
    hide Match, RunToV3, Substitute, GoodUnits;
    if items != [] {
      var rest := items[1..];
      ItemsToV3Cons(items);
      assert V2Only(rest) by {
        assert forall i :: 0 <= i < |rest| ==> rest[i] == items[i + 1];
      }
      ForwardWell(rest);
      match items[0] {
        case Plain(line) =>
          SubstituteKeepsNoClause(Word(V2, Inv), Word(V3, Inv), V3, line);
        case Clauses(units) =>
          RunShapeOf(V2, units, rest == []);
          if rest != [] { assert LastStays(units); }
          RunToV3Shape(units, rest == []);
          RunShapeGood(V3, RunToV3(units), rest == []);
          OrderNonempty(units);
      }
    }
  }

  // Re-parsing finds the same clause units, renamed and reordered: none is
  // lost, split or merged.
  lemma ReparseFindsSameUnits(lines: seq<string>)
    requires V2Only(ParseItems(V2, lines)) && RowsStay(ParseItems(V2, lines))
    ensures ParseItems(V3, LinesToV3(lines)) == ItemsToV3(ParseItems(V2, lines))
  {
    hide Well, ItemsToV3, GoodItems, V2Only, RowsStay;
    var items := ParseItems(V2, lines);
    ForwardWell(items);
    ParseWell(V3, ItemsToV3(items));
  }
}

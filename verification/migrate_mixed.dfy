/** Files that already hold a version 3 clause outside every version 2 run: the
    round trip never restores them. */
module MigrateMixed {
  import opened ClauseText
  import opened TrailingInvariant
  import opened ClauseUnits
  import opened Migrate
  import opened MigrateFiles
  import opened MigrateRoundTrip

  // ---------------------------------------------------------------------
  // The substitution keeps a clause line a clause line

  lemma {:induction false} PrefixStays(w: string, w': string, s: string, n: nat)
    requires n <= |s| && forall i :: 0 <= i < n ==> s[i] != '}'
    ensures n <= |Substitute(w, w', s)| && Substitute(w, w', s)[..n] == s[..n]
    decreases n
  {
    if n > 0 {
      assert forall i :: 0 <= i < n - 1 ==> s[1..][i] == s[i + 1];
      PrefixStays(w, w', s[1..], n - 1);
      var t := Substitute(w, w', s);
      assert t == [s[0]] + Substitute(w, w', s[1..]);
      assert s[..n] == [s[0]] + s[1..][..n - 1];
      assert t[..n] == [t[0]] + t[1..][..n - 1];
    }
  }

  lemma KindStays(w: string, w': string, v: Surface, k: Kind, s: string)
    requires MatchKind(v, k, s).Some?
    ensures MatchKind(v, k, Substitute(w, w', s)).Some?
  {
    WordIsPlain(v, k);
    hide IsSpace, Spaces, Substitute, Word;
    var j, u := Spaces(s), Word(v, k);
    NoBraceInPrefix(s, j, u);
    PrefixStays(w, w', s, j + |u| + 1);
    PrefixDecides(Substitute(w, w', s), s, j, u);
  }

  lemma SubstituteKeepsClause(w: string, w': string, v: Surface, s: string)
    requires Match(v, s).Some?
    ensures Match(v, Substitute(w, w', s)).Some?
  {
    hide MatchKind, Substitute;
    var k :| MatchKind(v, k, s).Some?;
    KindStays(w, w', v, k, s);
    MatchIsKind(v, k, Substitute(w, w', s));
  }

  // ---------------------------------------------------------------------
  // The way back, one item at a time

  lemma BackPlain(l: string, ls: seq<string>)
    requires Match(V3, l).None?
    ensures LinesToV2([l] + ls) == [Substitute(Word(V3, Inv), Word(V2, Inv), l)] + LinesToV2(ls)
  {
    hide Match, Substitute;
    assert ([l] + ls)[1..] == ls;
    var items := ParseItems(V3, ls);
    assert ParseItems(V3, [l] + ls) == [Plain(l)] + items;
    assert ([Plain(l)] + items)[1..] == items;
  }

  lemma BackRun(ls: seq<string>)
    requires ls != [] && Match(V3, ls[0]).Some?
    ensures var (units, rest) := ParseRun(V3, ls);
      units != [] && AllGood(V3, units) && LinesToV2(ls) == Flat(RunToV2(units)) + LinesToV2(rest)
  {
    hide Match, ParseRun, RunToV2, GoodUnits;
    ParseRunAdvances(V3, ls);
    ParseRunSound(V3, ls);
    var (units, rest) := ParseRun(V3, ls);
    GoodUnitsAll(V3, units, rest == []);
    var items := ParseItems(V3, rest);
    assert ParseItems(V3, ls) == [Clauses(units)] + items;
    assert ([Clauses(units)] + items)[1..] == items;
  }

  // Clauses are found one after the other whatever follows them, when all are closed.
  lemma {:induction false} ParseRunPrefix(v: Surface, units: seq<Unit>, more: seq<string>)
    requires AllGood(v, units) && forall i :: 0 <= i < |units| ==> ClosedUnit(units[i])
    ensures ParseRun(v, Flat(units) + more) == (units + ParseRun(v, more).0, ParseRun(v, more).1)
  {
    hide UnitLength, ClosedUnit, GoodUnit, ParseRun;
    if units == [] {
      assert Flat(units) + more == more && units + ParseRun(v, more).0 == ParseRun(v, more).0;
    } else {
      var u, rest := units[0], units[1..];
      assert forall i :: 0 <= i < |rest| ==> rest[i] == units[i + 1];
      ParseRunPrefix(v, rest, more);
      assert Flat(units) + more == u.lines + (Flat(rest) + more);
      UnitLengthOf(u, Flat(rest) + more);
      ParseRunStep(v, u, Flat(rest) + more);
      assert units + ParseRun(v, more).0 == [u] + (rest + ParseRun(v, more).0);
    }
  }

  // ---------------------------------------------------------------------
  // A version 3 line right after a run joins it

  lemma {:induction false} Order2Size(units: seq<Unit>)
    ensures |Order2(units)| == |units|
  {
    if units != [] { Order2Size(units[1..]); }
  }

  lemma RunThereSize(units: seq<Unit>, cs: set<int>)
    requires AllGood(V2, units) && cs in {{0}, {1}, {2}}
    ensures AllGood(V3, RunToV3(units)) && |Keep(RunToV3(units), cs)| == |Keep(units, cs)|
    ensures |RunToV3(units)| == |units|
  {
    hide GoodUnit, RenameUnit, Keep;
    OrderRename(V2, V3, units);
    RenameBack(V2, V3, Order3(units));
    KeepRename(V2, V3, Order3(units), cs);
    KeepOrder3(units, cs);
    Order3Size(units);
  }

  lemma KeepOrder3(units: seq<Unit>, cs: set<int>)
    requires cs in {{0}, {1}, {2}}
    ensures Keep(Order3(units), cs) == Keep(units, cs)
  {
    hide Keep;
    KeepConcat(Keep(units, {1}), Keep(units, {0, 2}), cs);
    KeepKeep(units, {1}, cs);
    KeepKeep(units, {0, 2}, cs);
    KeepNone(units);
    assert {1} * cs == if cs == {1} then cs else {};
    assert {0, 2} * cs == if cs == {1} then {} else cs;
  }

  lemma {:induction false} Order3Size(units: seq<Unit>)
    ensures |Order3(units)| == |units|
  {
    if units != [] { Order3Size(units[1..]); }
  }

  // Where version 2 order puts a last clause: behind every other of its class.
  lemma Order2Snoc(units: seq<Unit>, w: Unit) returns (a: seq<Unit>, b: seq<Unit>)
    ensures Order2(units + [w]) == a + [w] + b
    ensures forall i :: 0 <= i < |a| ==> a[i] in units
    ensures forall i :: 0 <= i < |b| ==> b[i] in units
    ensures |Keep(a, {Class(w.kind)})| >= |Keep(units, {Class(w.kind)})|
  {
    var c := Class(w.kind);
    var k0, k1, k2 := Keep(units, {0}), Keep(units, {1}), Keep(units, {2});
    KeepLast(units, w, 0);
    KeepLast(units, w, 1);
    KeepLast(units, w, 2);
    hide Keep;
    if c == 0 {
      a, b := k0, k1 + k2;
      assert Order2(units + [w]) == k0 + [w] + k1 + k2;
    } else if c == 1 {
      a, b := k0 + k1, k2;
      KeepConcat(k0, k1, {1});
      assert Order2(units + [w]) == k0 + (k1 + [w]) + k2;
    } else {
      a, b := k0 + k1 + k2, [];
      KeepConcat(k0 + k1, k2, {2});
      assert Order2(units + [w]) == k0 + k1 + (k2 + [w]);
    }
  }

  lemma KeepLast(units: seq<Unit>, w: Unit, c: int)
    ensures Keep(units + [w], {c}) == Keep(units, {c}) + (if Class(w.kind) == c then [w] else [])
    ensures forall i :: 0 <= i < |Keep(units, {c})| ==> Keep(units, {c})[i] in units
    ensures Keep(Keep(units, {c}), {c}) == Keep(units, {c})
  {
    KeepConcat(units, [w], {c});
    KeepMembers(units, {c});
    KeepKeep(units, {c}, {c});
    assert {c} * {c} == {c};
  }

  // The version 2 run the joined text starts with is not the original run.
  ghost predicate OtherRun(units: seq<Unit>, ls: seq<string>) {
    ParseRun(V2, ls).0 != units
  }

  lemma ClosedJoin(units: seq<Unit>, more: seq<Unit>, rest: seq<string>)
    requires AllGood(V3, more) && |more| > |units|
    requires forall i :: 0 <= i < |more| ==> ClosedUnit(more[i])
    ensures OtherRun(units, Flat(RunToV2(more)) + rest)
  {
    hide GoodUnit, ClosedUnit, RenameUnit, ParseRun, Flat, Keep;
    OrderRename(V3, V2, more);
    Order2Members(more);
    BackClosed(Order2(more));
    ParseRunPrefix(V2, RunToV2(more), rest);
    Order2Size(more);
  }

  lemma Order2Members(units: seq<Unit>)
    ensures forall i :: 0 <= i < |Order2(units)| ==> Order2(units)[i] in units
  {
    KeepMembers(units, {0});
    KeepMembers(units, {1});
    KeepMembers(units, {2});
    hide Keep;
  }

  lemma BackClosed(units: seq<Unit>)
    requires AllGood(V3, units) && forall i :: 0 <= i < |units| ==> ClosedUnit(units[i])
    ensures var r := Rename(V3, V2, units);
      AllGood(V2, r) && forall i :: 0 <= i < |r| ==> ClosedUnit(r[i])
  {
    hide GoodUnit, ClosedUnit, OpenUnit, RenameUnit, Rename;
    RenameBack(V3, V2, units);
    forall i | 0 <= i < |units|
      ensures ClosedUnit(RenameUnit(V3, V2, units[i]))
    {
      RenameUnitKeeps(V3, V2, units[i]);
    }
  }

  lemma OpenJoinFlat(a: seq<Unit>, w: Unit, b: seq<Unit>)
    requires AllGood(V3, a) && GoodUnit(V3, w) && AllGood(V3, b)
    ensures AllGood(V3, a + [w] + b)
    ensures Flat(Rename(V3, V2, a + [w] + b))
         == Flat(Rename(V3, V2, a)) + (RenameUnit(V3, V2, w).lines + Flat(Rename(V3, V2, b)))
  {
    hide GoodUnit, RenameUnit, Flat;
    var r := RenameUnit(V3, V2, w);
    RenameConcat(V3, V2, [w], b);
    RenameConcat(V3, V2, a, [w] + b);
    assert a + [w] + b == a + ([w] + b);
    assert Rename(V3, V2, [w]) == [r];
    FlatCons(r, Rename(V3, V2, b));
    FlatConcat(Rename(V3, V2, a), [r] + Rename(V3, V2, b));
  }

  lemma HeadOfRun(u: Unit, more: seq<string>)
    requires GoodUnit(V2, u)
    ensures var q := ParseRun(V2, u.lines + more).0;
      q != [] && q[0].kind == u.kind
  {
    hide Match;
    assert (u.lines + more)[0] == u.lines[0];
  }

  lemma OpenJoin(units: seq<Unit>, before: seq<Unit>, w: Unit)
    requires AllGood(V3, before) && GoodUnit(V3, w)
    requires forall i :: 0 <= i < |before| ==> ClosedUnit(before[i])
    requires |Keep(before, {Class(w.kind)})| >= |Keep(units, {Class(w.kind)})|
    ensures AllGood(V3, before + [w]) && OtherRun(units, Flat(RunToV2(before + [w])))
  {
    hide GoodUnit, ClosedUnit, RenameUnit, ParseRun, Flat, Keep, Order2, Rename;
    var cs := {Class(w.kind)};
    var a, b := Order2Snoc(before, w);
    assert AllGood(V3, before + [w]);
    OpenJoinFlat(a, w, b);
    BackClosed(a);
    var a', w', b' := Rename(V3, V2, a), RenameUnit(V3, V2, w), Rename(V3, V2, b);
    RenameUnitKeeps(V3, V2, w);
    ParseRunPrefix(V2, a', w'.lines + Flat(b'));
    HeadOfRun(w', Flat(b'));
    var q := ParseRun(V2, w'.lines + Flat(b')).0;
    KeepConcat(a', q, cs);
    KeepRename(V3, V2, a, cs);
    KeepFirst(q, cs);
  }

  lemma KeepFirst(units: seq<Unit>, cs: set<int>)
    requires units != [] && Class(units[0].kind) in cs
    ensures |Keep(units, cs)| >= 1
  {
  }

  lemma JoinedDiffers(units: seq<Unit>, joined: seq<Unit>, rest: seq<string>)
    requires AllGood(V2, units) && (forall i :: 0 <= i < |units| ==> ClosedUnit(units[i]))
    requires joined != [] && GoodUnits(V3, joined, rest == [])
    ensures AllGood(V3, RunToV3(units) + joined)
    ensures OtherRun(units, Flat(RunToV2(RunToV3(units) + joined)) + LinesToV2(rest))
  {
    hide GoodUnit, ClosedUnit, OpenUnit, ParseRun, Flat, Keep, RunToV2, RunToV3, LinesToV2;
    RunShapeOf(V3, joined, rest == []);
    RunThereSize(units, {0});
    RunThereSize(units, {1});
    RunThereSize(units, {2});
    ThereClosed(units);
    var there := RunToV3(units);
    var n := |joined| - 1;
    if ClosedUnit(joined[n]) {
      ClosedJoin(units, there + joined, LinesToV2(rest));
    } else {
      var init, w := joined[..n], joined[n];
      var before := there + init;
      assert there + joined == before + [w];
      var cs := {Class(w.kind)};
      KeepConcat(there, init, cs);
      assert cs in {{0}, {1}, {2}};
      OpenJoin(units, before, w);
      BackNothing();
      assert Flat(RunToV2(there + joined)) + [] == Flat(RunToV2(there + joined));
    }
  }

  lemma BackNothing()
    ensures LinesToV2([]) == []
  {
  }

  lemma ThereClosed(units: seq<Unit>)
    requires AllGood(V2, units) && (forall i :: 0 <= i < |units| ==> ClosedUnit(units[i]))
    ensures var r := RunToV3(units); AllGood(V3, r) && forall i :: 0 <= i < |r| ==> ClosedUnit(r[i])
  {
    hide GoodUnit, ClosedUnit, OpenUnit, Keep;
    assert RunShape(V2, units, false) && LastStays(units);
    RunToV3Shape(units, false);
  }

  // ---------------------------------------------------------------------
  // The file

  // A run before a line that is no version 3 clause comes back with its length.
  lemma RunThenPlain(units: seq<Unit>, rest: seq<string>)
    requires units != [] && AllGood(V2, units) && (forall i :: 0 <= i < |units| ==> ClosedUnit(units[i]))
    requires EndsRun(V3, rest)
    ensures LinesToV2(Flat(RunToV3(units)) + rest) == Flat(Order2(units)) + LinesToV2(rest)
    ensures |Flat(Order2(units))| == |Flat(units)|
  {
    ThereAndBackLength(Clauses(units));
    hide GoodUnit, ClosedUnit, OpenUnit, ParseRun, Flat, Keep, RunToV2, RunToV3, LinesToV2, Match, Order2;
    ThereClosed(units);
    OrderNonempty(units);
    var there := RunToV3(units);
    RunShapeGood(V3, there, false);
    ParseRunFlat(V3, there, rest, false);
    FirstLineMatches(V3, there, false);
    BackRun(Flat(there) + rest);
    RunThereAndBack(units);
  }

  // A run before a version 3 clause line does not come back.
  lemma RunThenClause(units: seq<Unit>, rest: seq<string>, tail: seq<string>)
    requires units != [] && AllGood(V2, units) && (forall i :: 0 <= i < |units| ==> ClosedUnit(units[i]))
    requires rest != [] && Match(V3, rest[0]).Some? && EndsRun(V2, tail)
    ensures LinesToV2(Flat(RunToV3(units)) + rest) != Flat(units) + tail
  {
    hide GoodUnit, ClosedUnit, OpenUnit, ParseRun, Flat, Keep, RunToV2, RunToV3, LinesToV2, Match;
    ThereClosed(units);
    OrderNonempty(units);
    var there := RunToV3(units);
    RunShapeGood(V3, there, false);
    FirstLineMatches(V3, there, false);
    BackRun(Flat(there) + rest);
    ParseRunPrefix(V3, there, rest);
    var (joined, after) := ParseRun(V3, rest);
    ParseRunAdvances(V3, rest);
    ParseRunSound(V3, rest);
    JoinedDiffers(units, joined, after);
    RunShapeGood(V2, units, false);
    ParseRunFlat(V2, units, tail, false);
  }

  lemma ClauseFirst(rest: seq<string>, l: string, tail: seq<string>)
    requires rest != [] && Match(V3, rest[0]).Some? && Match(V3, l).Some?
    ensures LinesToV2(rest) != [l] + tail
  {
    hide GoodUnit, ParseRun, Flat, Keep, RunToV2, LinesToV2, Match;
    BackRun(rest);
    var (units, after) := ParseRun(V3, rest);
    BackHead(units);
    NotBothSurfaces(l);
    assert LinesToV2(rest)[0] == Flat(RunToV2(units))[0] && ([l] + tail)[0] == l;
  }

  lemma BackHead(units: seq<Unit>)
    requires units != [] && AllGood(V3, units)
    ensures Flat(RunToV2(units)) != [] && Match(V2, Flat(RunToV2(units))[0]).Some?
  {
    hide Match, RenameUnit, Keep;
    OrderRename(V3, V2, units);
    RenameBack(V3, V2, Order2(units));
    Order2Size(units);
    assert GoodUnit(V2, RunToV2(units)[0]);
  }

  lemma RestNotV2Only(items: seq<Item>)
    requires items != [] && !V2Only(items) && (items[0].Plain? ==> Match(V3, items[0].line).None?)
    ensures !V2Only(items[1..])
  {
    hide Match;
    var i :| 0 <= i < |items| && items[i].Plain? && Match(V3, items[i].line).Some?;
    assert items[1..][i - 1] == items[i];
  }

  lemma PlainFirst(l: string, after: seq<string>, tail: seq<string>)
    requires Match(V3, l).None? ==> LinesToV2(after) != tail
    ensures LinesToV2([Substitute(Word(V2, Inv), Word(V3, Inv), l)] + after) != [l] + tail
  {
    hide Match, Substitute, LinesToV2, Word;
    var l' := Substitute(Word(V2, Inv), Word(V3, Inv), l);
    if Match(V3, l).None? {
      SubstituteKeepsNoClause(Word(V2, Inv), Word(V3, Inv), V3, l);
      BackPlain(l', after);
      var l'' := Substitute(Word(V3, Inv), Word(V2, Inv), l');
      if [l''] + LinesToV2(after) == [l] + tail { SplitAtSame([l''], LinesToV2(after), [l], tail); }
    } else {
      SubstituteKeepsClause(Word(V2, Inv), Word(V3, Inv), V3, l);
      ClauseFirst([l'] + after, l, tail);
    }
  }

  lemma RunFirst(units: seq<Unit>, l: string, after: seq<string>, tail: seq<string>)
    requires units != [] && GoodUnits(V2, units, false) && AllGood(V2, units)
    requires after != [] && after[0] == Substitute(Word(V2, Inv), Word(V3, Inv), l)
    requires tail != [] && tail[0] == l && Match(V2, l).None?
    requires Match(V3, l).None? ==> LinesToV2(after) != tail
    ensures LinesToV2(Flat(RunToV3(units)) + after) != Flat(units) + tail
  {
    hide Match, Substitute, LinesToV2, Word, GoodUnits, GoodUnit, ClosedUnit, OpenUnit, Flat, RunToV3, Order2;
    RunShapeOf(V2, units, false);
    if Match(V3, l).None? {
      SubstituteKeepsNoClause(Word(V2, Inv), Word(V3, Inv), V3, l);
      RunThenPlain(units, after);
      if Flat(Order2(units)) + LinesToV2(after) == Flat(units) + tail {
        SplitAtSame(Flat(Order2(units)), LinesToV2(after), Flat(units), tail);
      }
    } else {
      SubstituteKeepsClause(Word(V2, Inv), Word(V3, Inv), V3, l);
      RunThenClause(units, after, tail);
    }
  }

  lemma {:induction false} MixedItems(items: seq<Item>)
    requires Well(V2, items) && GoodItems(V2, items) && !V2Only(items)
    ensures LinesToV2(Lines(ItemsToV3(items))) != Lines(items)
  {
    assert items != [];
    hide Match, Substitute, RunToV3, LinesToV2, GoodUnits, V2Only, GoodUnit, Flat, Word;
    var rest := items[1..];
    ItemsToV3Cons(items);
    var after := Lines(ItemsToV3(rest));
    if items[0].Plain? {
      var l := items[0].line;
      if Match(V3, l).None? {
        RestNotV2Only(items);
        MixedItems(rest);
      }
      PlainFirst(l, after, Lines(rest));
    } else {
      RestNotV2Only(items);
      MixedItems(rest);
      RestStarts(rest);
      RunFirst(items[0].units, rest[0].line, after, Lines(rest));
    }
  }

  lemma RestStarts(rest: seq<Item>)
    requires GoodItems(V2, rest) && !V2Only(rest) && (rest != [] ==> rest[0].Plain?)
    ensures rest != [] && Lines(rest) != [] && Lines(rest)[0] == rest[0].line
    ensures Lines(ItemsToV3(rest)) != []
    ensures Lines(ItemsToV3(rest))[0] == Substitute(Word(V2, Inv), Word(V3, Inv), rest[0].line)
  {
    hide Match, Substitute, Word;
  }

  /** A file with a version 3 clause line outside its version 2 runs is never restored. */
  lemma MixedNotRestored(lines: seq<string>)
    requires !V2Only(ParseItems(V2, lines))
    ensures LinesToV2(LinesToV3(lines)) != lines
  {
    hide LinesToV2, V2Only;
    MixedItems(ParseItems(V2, lines));
  }
}

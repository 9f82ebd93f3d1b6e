/** The migration tool's loops over the lines of a file. */
module MigrateTool {
  import opened ClauseText
  import opened TrailingInvariant
  import opened ClauseUnits
  import opened Migrate
  import opened MigrateFiles
  import opened MigrateRoundTrip
  import opened MigrateMixed
  import opened MigrateText
  import opened MigrateSpelling

  // ---------------------------------------------------------------------
  // Reading a run

  lemma TakeStep(d: int, ls: seq<string>)
    requires d > 0 && ls != []
    ensures Take(d, ls) == 1 + Take(d + Delta(ls[0]), ls[1..])
  {
  }

  // One clause: its line and the lines until its delimiters close.
  method ReadClause(lines: seq<string>, first: nat) returns (body: seq<string>, i: nat)
    requires first < |lines|
    ensures first <= i < |lines| && body == lines[first..i + 1]
    ensures |body| == UnitLength(lines[first..])
  {
    i, body := first, [lines[first]];
    var depth := Balance(lines[first], 0);
    assert lines[first..][1..] == lines[first + 1..];
    hide Delta, Take;
    while depth > 0 && i + 1 < |lines|
      invariant first <= i < |lines| && body == lines[first..i + 1]
      invariant |body| + Take(depth, lines[i + 1..]) == UnitLength(lines[first..])
      decreases |lines| - i
    {
      TakeStep(depth, lines[i + 1..]);
      assert lines[i + 1..][1..] == lines[i + 2..];
      i := i + 1;
      body := body + [lines[i]];
      depth := Balance(lines[i], depth);
    }
    TakeNone(depth, lines[i + 1..]);
  }

  lemma TakeNone(d: int, ls: seq<string>)
    requires d <= 0 || ls == []
    ensures Take(d, ls) == 0
  {
  }

  lemma ParseRunEnds(v: Surface, ls: seq<string>)
    requires ls == [] || Match(v, ls[0]).None?
    ensures ParseRun(v, ls) == ([], ls)
  {
  }

  // The run of clauses from a line on, and the index just past it.
  method ReadClauses(v: Surface, lines: seq<string>, start: nat) returns (out: seq<Unit>, i: nat)
    requires start <= |lines|
    ensures start <= i <= |lines|
    ensures (out, lines[i..]) == ParseRun(v, lines[start..])
  {
    hide Match, ParseRun, UnitLength;
    i, out := start, [];
    assert out + ParseRun(v, lines[start..]).0 == ParseRun(v, lines[start..]).0;
    while i < |lines|
      invariant start <= i <= |lines|
      invariant ParseRun(v, lines[start..]) == (out + ParseRun(v, lines[i..]).0, ParseRun(v, lines[i..]).1)
    {
      var m := Match(v, lines[i]);
      if m.None? {
        break;
      }
      ParseRunNext(v, lines[i..]);
      var body, last := ReadClause(lines, i);
      assert lines[i..][..|body|] == body && lines[i..][|body|..] == lines[last + 1..];
      ghost var rest := ParseRun(v, lines[last + 1..]).0;
      assert out + ([Unit(m.value.kind, body)] + rest) == (out + [Unit(m.value.kind, body)]) + rest;
      out := out + [Unit(m.value.kind, body)];
      i := last + 1;
    }
    ParseRunEnds(v, lines[i..]);
    assert out + [] == out;
  }

  // ---------------------------------------------------------------------
  // Writing a run

  method Emit(from: Surface, to: Surface, units: seq<Unit>) returns (out: seq<string>)
    requires AllGood(from, units)
    ensures out == Flat(Rename(from, to, units))
  {
    hide Match, Render, Flat;
    out := [];
    ghost var all := Rename(from, to, units);
    FlatNone();
    assert all[..0] == [];
    for k := 0 to |units|
      invariant out == Flat(all[..k])
    {
      var body := units[k].lines;
      assert GoodUnit(from, units[k]);
      var line := Render(to, Match(from, body[0]).value);
      assert all[k] == RenameUnit(from, to, units[k]);
      FlatSnoc(all[..k], all[k]);
      assert all[..k + 1] == all[..k] + [all[k]];
      out := out + [line] + body[1..];
    }
    assert all[..|units|] == all;
  }

  lemma FlatNone()
    ensures Flat([]) == []
  {
  }

  lemma FlatSnoc(units: seq<Unit>, u: Unit)
    ensures Flat(units + [u]) == Flat(units) + u.lines
  {
    FlatConcat(units, [u]);
    FlatCons(u, []);
    assert [u] + [] == [u];
  }

  // ---------------------------------------------------------------------
  // The two directions

  lemma ForwardPlain(l: string, ls: seq<string>)
    requires Match(V2, l).None?
    ensures LinesToV3([l] + ls) == [Substitute(Word(V2, Inv), Word(V3, Inv), l)] + LinesToV3(ls)
  {
    hide Match, Substitute;
    assert ([l] + ls)[1..] == ls;
    var items := ParseItems(V2, ls);
    assert ParseItems(V2, [l] + ls) == [Plain(l)] + items;
    assert ([Plain(l)] + items)[1..] == items;
  }

  lemma ForwardRun(ls: seq<string>)
    requires ls != [] && Match(V2, ls[0]).Some?
    ensures var (units, rest) := ParseRun(V2, ls);
      |rest| < |ls| && AllGood(V2, units) && LinesToV3(ls) == Flat(RunToV3(units)) + LinesToV3(rest)
  {
    hide Match, ParseRun, RunToV3, GoodUnits;
    ParseRunAdvances(V2, ls);
    ParseRunSound(V2, ls);
    var (units, rest) := ParseRun(V2, ls);
    GoodUnitsAll(V2, units, rest == []);
    var items := ParseItems(V2, rest);
    assert ParseItems(V2, ls) == [Clauses(units)] + items;
    assert ([Clauses(units)] + items)[1..] == items;
  }

  lemma RunToV3Flat(units: seq<Unit>)
    requires AllGood(V2, units)
    ensures AllGood(V2, Keep(units, {1})) && AllGood(V2, Keep(units, {0, 2}))
    ensures Flat(RunToV3(units)) == Flat(Rename(V2, V3, Keep(units, {1}))) + Flat(Rename(V2, V3, Keep(units, {0, 2})))
  {
    hide GoodUnit, RenameUnit, Keep, Flat;
    KeepGood(V2, units, {1});
    KeepGood(V2, units, {0, 2});
    RenameConcat(V2, V3, Keep(units, {1}), Keep(units, {0, 2}));
    FlatConcat(Rename(V2, V3, Keep(units, {1})), Rename(V2, V3, Keep(units, {0, 2})));
  }

  lemma RunToV2Flat(units: seq<Unit>)
    requires AllGood(V3, units)
    ensures forall c: int :: AllGood(V3, Keep(units, {c}))
    ensures Flat(RunToV2(units)) == Flat(Rename(V3, V2, Keep(units, {0})))
      + Flat(Rename(V3, V2, Keep(units, {1}))) + Flat(Rename(V3, V2, Keep(units, {2})))
  {
    hide GoodUnit, RenameUnit, Keep, Flat;
    forall c: int
      ensures AllGood(V3, Keep(units, {c}))
    {
      KeepGood(V3, units, {c});
    }
    var k0, k1, k2 := Keep(units, {0}), Keep(units, {1}), Keep(units, {2});
    RenameConcat(V3, V2, k0, k1);
    RenameConcat(V3, V2, k0 + k1, k2);
    FlatConcat(Rename(V3, V2, k0), Rename(V3, V2, k1));
    FlatConcat(Rename(V3, V2, k0 + k1), Rename(V3, V2, k2));
  }

  method RewriteLinesToV3(lines: seq<string>) returns (out: seq<string>)
    ensures out == LinesToV3(lines)
  {
    hide Match, ParseRun, Flat, RunToV3, LinesToV3, GoodUnit, Keep, Substitute;
    out := [];
    var i := 0;
    assert lines[0..] == lines;
    while i < |lines|
      invariant i <= |lines|
      invariant out + LinesToV3(lines[i..]) == LinesToV3(lines)
    {
      ghost var before := out;
      if Match(V2, lines[i]).None? {
        assert lines[i..] == [lines[i]] + lines[i + 1..];
        ForwardPlain(lines[i], lines[i + 1..]);
        out := out + [Substitute(Word(V2, Inv), Word(V3, Inv), lines[i])];
        i := i + 1;
      } else {
        ForwardRun(lines[i..]);
        var run, next := ReadClauses(V2, lines, i);
        RunToV3Flat(run);
        var row := Emit(V2, V3, Keep(run, {1}));
        var rest := Emit(V2, V3, Keep(run, {0, 2}));
        out := out + row + rest;
        assert out == before + (row + rest);
        i := next;
      }
    }
    ToV3Nothing();
    assert lines[i..] == [] && out + [] == out;
  }

  /** The rewritten file, however its lines divide into contracts. */
  method RewriteToV3(lines: seq<string>) returns (out: seq<string>)
    ensures out == LinesToV3(lines)
    ensures forall blocks :: Divided(V2, blocks) && Source(V2, blocks) == lines ==> out == AllInV3(blocks)
  {
    hide LinesToV3, Divided, Source, AllInV3;
    forall blocks | Divided(V2, blocks) && Source(V2, blocks) == lines
      ensures LinesToV3(lines) == AllInV3(blocks)
    {
      ToV3Means(blocks);
    }
    out := RewriteLinesToV3(lines);
  }

  lemma ToV3Nothing()
    ensures LinesToV3([]) == []
  {
  }

  // Contracts, then rows, then measures.
  method EmitInOrder(run: seq<Unit>) returns (out: seq<string>)
    requires AllGood(V3, run)
    ensures out == Flat(RunToV2(run))
  {
    hide Flat, RunToV2, GoodUnit, Keep;
    RunToV2Flat(run);
    var head := Emit(V3, V2, Keep(run, {0}));
    var row := Emit(V3, V2, Keep(run, {1}));
    var tail := Emit(V3, V2, Keep(run, {2}));
    out := head + row + tail;
  }

  method RewriteLinesToV2(lines: seq<string>) returns (out: seq<string>)
    ensures out == LinesToV2(lines)
  {
    hide Match, ParseRun, Flat, RunToV2, LinesToV2, GoodUnit, Keep, Substitute;
    out := [];
    var i := 0;
    assert lines[0..] == lines;
    while i < |lines|
      invariant i <= |lines|
      invariant out + LinesToV2(lines[i..]) == LinesToV2(lines)
    {
      ghost var before := out;
      if Match(V3, lines[i]).None? {
        assert lines[i..] == [lines[i]] + lines[i + 1..];
        BackPlain(lines[i], lines[i + 1..]);
        out := out + [Substitute(Word(V3, Inv), Word(V2, Inv), lines[i])];
        i := i + 1;
      } else {
        BackRun(lines[i..]);
        ParseRunAdvances(V3, lines[i..]);
        var run, next := ReadClauses(V3, lines, i);
        var text := EmitInOrder(run);
        out := out + text;
        assert out + LinesToV2(lines[next..]) == before + (text + LinesToV2(lines[next..]));
        i := next;
      }
    }
    BackNothing();
    assert lines[i..] == [] && out + [] == out;
  }

  /** The rewritten file, however its lines divide into contracts. */
  method RewriteToV2(lines: seq<string>) returns (out: seq<string>)
    ensures out == LinesToV2(lines)
    ensures forall blocks :: Divided(V3, blocks) && Source(V3, blocks) == lines ==> out == AllInV2(blocks)
  {
    hide LinesToV2, Divided, Source, AllInV2;
    forall blocks | Divided(V3, blocks) && Source(V3, blocks) == lines
      ensures LinesToV2(lines) == AllInV2(blocks)
    {
      ToV2Means(blocks);
    }
    out := RewriteLinesToV2(lines);
  }

  // ---------------------------------------------------------------------
  // Files that do not come back

  // A measure before its row: the round trip swaps them.
  lemma MeasureFirst(dec: Clause, fx: Clause)
    requires GoodClause(dec) && GoodClause(fx) && dec.kind == Dec && fx.kind == Fx
    requires Delta(Render(V2, dec)) <= 0 && Delta(Render(V2, fx)) <= 0
    ensures var lines := [Render(V2, dec), Render(V2, fx)];
      LinesToV2(LinesToV3(lines)) != lines
  {
    hide Delta, Render, LinesToV3, LinesToV2, V2Only, RowsStay, Match, GoodClause;
    MatchComplete(V2, dec);
    MatchComplete(V2, fx);
    var a, b := Unit(Dec, [Render(V2, dec)]), Unit(Fx, [Render(V2, fx)]);
    var units := [a] + [b];
    var items := [Clauses(units)];
    var lines := [Render(V2, dec), Render(V2, fx)];
    assert [b] + [] == [b];
    FlatCons(a, [b]);
    FlatCons(b, []);
    assert Lines(items) == lines by { assert items[1..] == [] && a.lines + (b.lines + []) == lines; }
    assert Well(V2, items) by {
      GoodUnitsCons(V2, b, [], true);
      GoodUnitsCons(V2, a, [b], true);
      assert items[1..] == [];
    }
    ParseWell(V2, items);
    assert Class(units[0].kind) > Class(units[1].kind);
    assert !ItemReversible(items[0]);
    LinesRestoredExactly(lines);
  }

  lemma {:induction false} NeutralLine(s: string)
    requires forall i :: 0 <= i < |s| ==> Neutral(s[i])
    ensures Delta(s) == 0
  {
    NeutralPrefix(s, "");
    assert s + "" == s;
  }

  lemma MeasureFirstExample()
    ensures LinesToV2(LinesToV3(["dec n", "fx pure"])) != ["dec n", "fx pure"]
  {
    hide Delta, LinesToV3, LinesToV2;
    var a, b := Clause("", Dec, " ", "n"), Clause("", Fx, " ", "pure");
    assert Render(V2, a) == "dec n" && Render(V2, b) == "fx pure";
    NeutralLine("dec n");
    NeutralLine("fx pure");
    MeasureFirst(a, b);
  }
}

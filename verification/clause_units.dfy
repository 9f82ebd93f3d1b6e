/** Clauses that span lines, runs of them, and the division of a file into
    plain lines and clause runs. */
module ClauseUnits {
  import opened ClauseText

  datatype Unit = Unit(kind: Kind, lines: seq<string>)

  predicate GoodUnit(v: Surface, u: Unit) {
    u.lines != [] && Match(v, u.lines[0]).Some? && Match(v, u.lines[0]).value.kind == u.kind
  }

  // How many further lines a clause takes from depth d.
  function Take(d: int, ls: seq<string>): (n: nat)
    ensures n <= |ls|
    decreases |ls|
  {
    if d > 0 && ls != [] then 1 + Take(d + Delta(ls[0]), ls[1..]) else 0
  }

  // From depth d the lines close exactly at their end.
  predicate Closes(d: int, ls: seq<string>)
    decreases |ls|
  {
    if ls == [] then d <= 0 else d > 0 && Closes(d + Delta(ls[0]), ls[1..])
  }

  // From depth d the lines never close.
  predicate Open(d: int, ls: seq<string>)
    decreases |ls|
  {
    d > 0 && (ls != [] ==> Open(d + Delta(ls[0]), ls[1..]))
  }

  predicate ClosedUnit(u: Unit) {
    u.lines != [] && Closes(Delta(u.lines[0]), u.lines[1..])
  }

  predicate OpenUnit(u: Unit) {
    u.lines != [] && Open(Delta(u.lines[0]), u.lines[1..])
  }

  lemma {:induction false} TakeCloses(d: int, ls: seq<string>, more: seq<string>)
    requires Closes(d, ls)
    ensures Take(d, ls + more) == |ls|
    decreases |ls|
  {
    if ls == [] {
    } else {
      TakeCloses(d + Delta(ls[0]), ls[1..], more);
      assert (ls + more)[1..] == ls[1..] + more;
    }
  }

  lemma {:induction false} TakeOpen(d: int, ls: seq<string>)
    requires Open(d, ls)
    ensures Take(d, ls) == |ls|
    decreases |ls|
  {
    if ls != [] { TakeOpen(d + Delta(ls[0]), ls[1..]); }
  }

  lemma {:induction false} TakenShape(d: int, ls: seq<string>)
    ensures var n := Take(d, ls); Closes(d, ls[..n]) || (n == |ls| && Open(d, ls))
    decreases |ls|
  {
    if d > 0 && ls != [] {
      var n := Take(d, ls);
      TakenShape(d + Delta(ls[0]), ls[1..]);
      assert ls[..n][0] == ls[0] && ls[..n][1..] == ls[1..][..n - 1];
    }
  }

  // ---------------------------------------------------------------------
  // Runs

  function UnitLength(ls: seq<string>): (n: nat)
    requires ls != []
    ensures 1 <= n <= |ls|
  {
    1 + Take(Delta(ls[0]), ls[1..])
  }

  // The clauses from the first line on, and the lines after them.
  function ParseRun(v: Surface, ls: seq<string>): (r: (seq<Unit>, seq<string>))
    ensures |r.1| <= |ls|
    decreases |ls|
  {
    if ls == [] || Match(v, ls[0]).None? then ([], ls)
    else
      var n := UnitLength(ls);
      var (units, rest) := ParseRun(v, ls[n..]);
      ([Unit(Match(v, ls[0]).value.kind, ls[..n])] + units, rest)
  }

  function Flat(units: seq<Unit>): seq<string> {
    if units == [] then [] else units[0].lines + Flat(units[1..])
  }

  // Well-formed clauses, all closed unless the file ends in the last one.
  predicate GoodUnits(v: Surface, units: seq<Unit>, atEnd: bool) {
    units == [] ||
    (&& GoodUnit(v, units[0])
     && (ClosedUnit(units[0]) || (atEnd && |units| == 1 && OpenUnit(units[0])))
     && GoodUnits(v, units[1..], atEnd))
  }

  ghost predicate EndsRun(v: Surface, rest: seq<string>) {
    rest == [] || Match(v, rest[0]).None?
  }

  lemma UnitLengthOf(u: Unit, more: seq<string>)
    requires ClosedUnit(u) || (OpenUnit(u) && more == [])
    ensures UnitLength(u.lines + more) == |u.lines|
  {
    var ls := u.lines + more;
    assert ls[0] == u.lines[0] && ls[1..] == u.lines[1..] + more;
    if ClosedUnit(u) {
      TakeCloses(Delta(u.lines[0]), u.lines[1..], more);
    } else {
      assert ls == u.lines;
      TakeOpen(Delta(u.lines[0]), u.lines[1..]);
    }
  }

  lemma ParseRunStep(v: Surface, u: Unit, more: seq<string>)
    requires GoodUnit(v, u) && UnitLength(u.lines + more) == |u.lines|
    ensures ParseRun(v, u.lines + more) == ([u] + ParseRun(v, more).0, ParseRun(v, more).1)
  {
    hide Match, UnitLength;
    var ls := u.lines + more;
    assert ls[0] == u.lines[0] && ls[..|u.lines|] == u.lines && ls[|u.lines|..] == more;
  }

  lemma FlatCons(u: Unit, units: seq<Unit>)
    ensures Flat([u] + units) == u.lines + Flat(units)
  {
    assert ([u] + units)[1..] == units;
  }

  // Reading back written clauses finds exactly those clauses.
  lemma {:induction false} ParseRunFlat(v: Surface, units: seq<Unit>, rest: seq<string>, atEnd: bool)
    requires GoodUnits(v, units, atEnd) && EndsRun(v, rest) && (atEnd ==> rest == [])
    ensures ParseRun(v, Flat(units) + rest) == (units, rest)
  {
    hide UnitLength, ClosedUnit, OpenUnit, GoodUnit;
    if units == [] {
      assert Flat(units) + rest == rest;
    } else {
      var u, more := units[0], Flat(units[1..]) + rest;
      ParseRunFlat(v, units[1..], rest, atEnd);
      assert Flat(units) + rest == u.lines + more;
      if !ClosedUnit(u) {
        assert more == [];
      }
      UnitLengthOf(u, more);
      hide ParseRun, Flat;
      ParseRunStep(v, u, more);
      assert units == [u] + units[1..];
    }
  }

  lemma UnitHere(v: Surface, ls: seq<string>)
    requires ls != [] && Match(v, ls[0]).Some?
    ensures var n := UnitLength(ls); var u := Unit(Match(v, ls[0]).value.kind, ls[..n]);
      GoodUnit(v, u) && (ClosedUnit(u) || (n == |ls| && OpenUnit(u)))
  {
    hide Match;
    var n := UnitLength(ls);
    TakenShape(Delta(ls[0]), ls[1..]);
    assert ls[..n][0] == ls[0] && ls[..n][1..] == ls[1..][..n - 1];
    if n == |ls| { assert ls[..n][1..] == ls[1..]; }
  }

  lemma GoodUnitsCons(v: Surface, u: Unit, units: seq<Unit>, atEnd: bool)
    requires GoodUnit(v, u) && GoodUnits(v, units, atEnd)
    requires ClosedUnit(u) || (atEnd && units == [] && OpenUnit(u))
    ensures GoodUnits(v, [u] + units, atEnd)
  {
    hide GoodUnit, ClosedUnit, OpenUnit;
    assert ([u] + units)[1..] == units;
  }

  ghost predicate RunOf(v: Surface, ls: seq<string>, units: seq<Unit>, rest: seq<string>) {
    Flat(units) + rest == ls && EndsRun(v, rest) && GoodUnits(v, units, rest == [])
  }

  lemma RunCons(v: Surface, u: Unit, ls: seq<string>, units: seq<Unit>, rest: seq<string>)
    requires RunOf(v, ls, units, rest) && GoodUnit(v, u)
    requires ClosedUnit(u) || (ls == [] && OpenUnit(u))
    ensures RunOf(v, u.lines + ls, [u] + units, rest)
  {
    hide GoodUnit, ClosedUnit, OpenUnit, Match;
    FlatCons(u, units);
    if ls == [] {
      assert Flat(units) == [] && rest == [];
      if units != [] { FirstLineMatches(v, units, true); }
    }
    GoodUnitsCons(v, u, units, rest == []);
    assert u.lines + Flat(units) + rest == u.lines + (Flat(units) + rest);
  }

  lemma ParseRunNext(v: Surface, ls: seq<string>)
    requires ls != [] && Match(v, ls[0]).Some?
    ensures var n := UnitLength(ls); var r := ParseRun(v, ls[n..]);
      ParseRun(v, ls) == ([Unit(Match(v, ls[0]).value.kind, ls[..n])] + r.0, r.1)
  {
    hide Match, UnitLength;
  }

  lemma {:induction false} ParseRunSound(v: Surface, ls: seq<string>)
    ensures RunOf(v, ls, ParseRun(v, ls).0, ParseRun(v, ls).1)
    decreases |ls|
  {
    hide Match, RunOf, UnitLength;
    if ls == [] || Match(v, ls[0]).None? {
      NoRun(v, ls);
    } else {
      hide ParseRun;
      var n := UnitLength(ls);
      ParseRunSound(v, ls[n..]);
      UnitHere(v, ls);
      hide GoodUnit, ClosedUnit, OpenUnit;
      ParseRunNext(v, ls);
      var r := ParseRun(v, ls[n..]);
      assert n == |ls| ==> ls[n..] == [];
      RunCons(v, Unit(Match(v, ls[0]).value.kind, ls[..n]), ls[n..], r.0, r.1);
      assert ls == ls[..n] + ls[n..];
    }
  }

  lemma NoRun(v: Surface, ls: seq<string>)
    requires EndsRun(v, ls)
    ensures RunOf(v, ls, [], ls)
  {
    assert Flat([]) + ls == ls;
  }

  // ---------------------------------------------------------------------
  // Files

  datatype Item = Plain(line: string) | Clauses(units: seq<Unit>)

  function Parse(v: Surface, ls: seq<string>): seq<Item>
    decreases |ls|
  {
    if ls == [] then []
    else if Match(v, ls[0]).None? then [Plain(ls[0])] + Parse(v, ls[1..])
    else
      ParseRunAdvances(v, ls);
      var (units, rest) := ParseRun(v, ls);
      [Clauses(units)] + Parse(v, rest)
  }

  lemma ParseRunAdvances(v: Surface, ls: seq<string>)
    requires ls != [] && Match(v, ls[0]).Some?
    ensures |ParseRun(v, ls).1| < |ls| && ParseRun(v, ls).0 != []
  {
  }

  function Text(item: Item): seq<string> {
    match item
    case Plain(line) => [line]
    case Clauses(units) => Flat(units)
  }

  function Lines(items: seq<Item>): seq<string> {
    if items == [] then [] else Text(items[0]) + Lines(items[1..])
  }

  predicate Well(v: Surface, items: seq<Item>) {
    items == [] ||
    (&& Well(v, items[1..])
     && match items[0]
        case Plain(line) => Match(v, line).None?
        case Clauses(units) =>
          && units != [] && GoodUnits(v, units, items[1..] == [])
          && (items[1..] != [] ==> items[1].Plain?))
  }

  lemma WellRest(v: Surface, items: seq<Item>)
    requires Well(v, items) && (items != [] ==> items[0].Plain?)
    ensures EndsRun(v, Lines(items))
  {
    if items != [] { assert Lines(items)[0] == items[0].line; }
  }

  // Parsing the text of a well-formed division of a file gives it back.
  lemma {:induction false} ParseWell(v: Surface, items: seq<Item>)
    requires Well(v, items)
    ensures Parse(v, Lines(items)) == items
  {
    hide Match, GoodUnits;
    if items != [] {
      var rest := items[1..];
      ParseWell(v, rest);
      assert items == [items[0]] + rest;
      var ls := Lines(items);
      match items[0] {
        case Plain(line) =>
          assert ls[0] == line && ls[1..] == Lines(rest);
        case Clauses(units) =>
          WellRest(v, rest);
          if rest == [] { assert Lines(rest) == []; }
          ParseRunFlat(v, units, Lines(rest), rest == []);
          FirstLineMatches(v, units, rest == []);
          assert ls[0] == units[0].lines[0];
      }
    }
  }

  lemma FirstLineMatches(v: Surface, units: seq<Unit>, atEnd: bool)
    requires units != [] && GoodUnits(v, units, atEnd)
    ensures units[0].lines != [] && Match(v, units[0].lines[0]).Some?
    ensures Flat(units) != [] && Flat(units)[0] == units[0].lines[0]
  {
  }

  // Every file divides into well-formed items, and they are its text.
  lemma {:induction false} ParseSound(v: Surface, ls: seq<string>)
    ensures Well(v, Parse(v, ls)) && Lines(Parse(v, ls)) == ls
    decreases |ls|
  {
    hide Match, GoodUnits;
    if ls == [] {
    } else if Match(v, ls[0]).None? {
      ParseSound(v, ls[1..]);
      var rest := Parse(v, ls[1..]);
      assert ([Plain(ls[0])] + rest)[1..] == rest;
      assert ls == [ls[0]] + ls[1..];
    } else {
      ParseRunAdvances(v, ls);
      ParseRunSound(v, ls);
      var (units, tail) := ParseRun(v, ls);
      ParseSound(v, tail);
      var rest := Parse(v, tail);
      assert ([Clauses(units)] + rest)[1..] == rest;
      if tail == [] { assert rest == []; }
      if rest != [] { assert tail != [] && rest[0] == Plain(tail[0]); }
    }
  }
}

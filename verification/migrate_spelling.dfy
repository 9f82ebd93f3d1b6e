/** What the rewrite writes, in the words of the two surfaces: an independent
    description of every file and of what becomes of it. */
module MigrateSpelling {
  import opened Wrappers
  import opened ClauseText
  import opened TrailingInvariant
  import opened ClauseUnits
  import opened Migrate
  import opened MigrateFiles
  import opened MigrateRoundTrip

  // ---------------------------------------------------------------------
  // Files as they stand

  predicate Spelling(v2: string, v3: string) {
    || (v2 == "req" && v3 == "requires")
    || (v2 == "ens" && v3 == "ensures")
    || (v2 == "inv" && v3 == "keeps")
    || (v2 == "fx" && v3 == "!")
    || (v2 == "dec" && v3 == "measures")
  }

  // A clause: its keyword on both surfaces, the rest of its line, and its further lines.
  datatype Written = Written(v2: string, v3: string, indent: string, gap: string, expr: string, more: seq<string>)

  predicate WellWritten(c: Written) {
    && Spelling(c.v2, c.v3) && AllSpace(c.indent)
    && AllSpace(c.gap) && c.gap != "" && (c.expr != "" ==> !IsSpace(c.expr[0]))
  }

  function Head(v: Surface, c: Written): string {
    c.indent + (if v == V2 then c.v2 else c.v3) + c.gap + c.expr
  }

  function Texts(v: Surface, cs: seq<Written>): seq<string> {
    if cs == [] then [] else [Head(v, cs[0])] + cs[0].more + Texts(v, cs[1..])
  }

  // The clauses with one of these version 2 keywords, in order.
  function Pick(cs: seq<Written>, words: set<string>): seq<Written> {
    if cs == [] then []
    else if cs[0].v2 in words then [cs[0]] + Pick(cs[1..], words)
    else Pick(cs[1..], words)
  }

  datatype Block = Line(text: string) | Contract(clauses: seq<Written>)

  ghost predicate IsHead(v: Surface, line: string) {
    exists c: Written :: WellWritten(c) && Head(v, c) == line
  }

  // Clauses whose delimiters close on their last line, but perhaps at the end of the file.
  predicate Complete(v: Surface, cs: seq<Written>, atEnd: bool) {
    forall i :: 0 <= i < |cs| ==>
      && WellWritten(cs[i])
      && (|| Closes(Delta(Head(v, cs[i])), cs[i].more)
          || (atEnd && i == |cs| - 1 && Open(Delta(Head(v, cs[i])), cs[i].more)))
  }

  // Lines that begin no clause, and contracts as long as they can be.
  ghost predicate Divided(v: Surface, blocks: seq<Block>) {
    blocks == [] ||
    (&& Divided(v, blocks[1..])
     && match blocks[0]
        case Line(text) => !IsHead(v, text)
        case Contract(cs) =>
          && cs != [] && Complete(v, cs, blocks[1..] == [])
          && (blocks[1..] != [] ==> blocks[1].Line?))
  }

  function Source(v: Surface, blocks: seq<Block>): seq<string> {
    if blocks == [] then []
    else (match blocks[0] case Line(text) => [text] case Contract(cs) => Texts(v, cs)) + Source(v, blocks[1..])
  }

  // Version 3: rows first, the other clauses as they stood.
  function InV3(block: Block): seq<string> {
    match block
    case Line(text) => [Substitute("inv", "keeps", text)]
    case Contract(cs) => Texts(V3, Pick(cs, {"fx"})) + Texts(V3, Pick(cs, {"req", "ens", "inv", "dec"}))
  }

  // Version 2: contract clauses, rows, measures.
  function InV2(block: Block): seq<string> {
    match block
    case Line(text) => [Substitute("keeps", "inv", text)]
    case Contract(cs) =>
      Texts(V2, Pick(cs, {"req", "ens", "inv"})) + Texts(V2, Pick(cs, {"fx"})) + Texts(V2, Pick(cs, {"dec"}))
  }

  function AllInV3(blocks: seq<Block>): seq<string> {
    if blocks == [] then [] else InV3(blocks[0]) + AllInV3(blocks[1..])
  }

  function AllInV2(blocks: seq<Block>): seq<string> {
    if blocks == [] then [] else InV2(blocks[0]) + AllInV2(blocks[1..])
  }

  // ---------------------------------------------------------------------
  // The clause units they are

  function KindOf(v2: string): Kind {
    if v2 == "req" then Req else if v2 == "ens" then Ens else if v2 == "inv" then Inv else if v2 == "fx" then Fx else Dec
  }

  function ClauseOf(c: Written): Clause {
    Clause(c.indent, KindOf(c.v2), c.gap, c.expr)
  }

  function UnitOf(v: Surface, c: Written): Unit {
    Unit(KindOf(c.v2), [Head(v, c)] + c.more)
  }

  function UnitsOf(v: Surface, cs: seq<Written>): (units: seq<Unit>)
    ensures |units| == |cs| && forall i :: 0 <= i < |cs| ==> units[i] == UnitOf(v, cs[i])
  {
    if cs == [] then [] else [UnitOf(v, cs[0])] + UnitsOf(v, cs[1..])
  }

  predicate AllWritten(cs: seq<Written>) {
    forall i :: 0 <= i < |cs| ==> WellWritten(cs[i])
  }

  lemma WordIs(c: Written)
    requires Spelling(c.v2, c.v3)
    ensures Word(V2, KindOf(c.v2)) == c.v2 && Word(V3, KindOf(c.v2)) == c.v3
  {
  }

  lemma HeadMatches(v: Surface, c: Written)
    requires WellWritten(c)
    ensures GoodClause(ClauseOf(c)) && Render(v, ClauseOf(c)) == Head(v, c)
    ensures Match(v, Head(v, c)) == Some(ClauseOf(c))
  {
    WordIs(c);
    MatchComplete(v, ClauseOf(c));
    hide Word, KindOf, IsSpace, Match;
  }

  lemma UnitIsGood(v: Surface, w: Surface, c: Written)
    requires WellWritten(c)
    ensures GoodUnit(v, UnitOf(v, c)) && RenameUnit(v, w, UnitOf(v, c)) == UnitOf(w, c)
  {
    HeadMatches(v, c);
    HeadMatches(w, c);
    hide Match, Render, Head, WellWritten;
    assert ([Head(v, c)] + c.more)[1..] == c.more;
  }

  // The clause a matching line was written as.
  function WrittenOf(v: Surface, u: Unit): Written
    requires GoodUnit(v, u)
  {
    var c := Match(v, u.lines[0]).value;
    Written(Word(V2, u.kind), Word(V3, u.kind), c.indent, c.gap, c.expr, u.lines[1..])
  }

  lemma SpellingOf(k: Kind)
    ensures Spelling(Word(V2, k), Word(V3, k)) && KindOf(Word(V2, k)) == k
  {
  }

  lemma ClauseWritten(v: Surface, c: Clause, more: seq<string>)
    requires GoodClause(c)
    ensures var w := Written(Word(V2, c.kind), Word(V3, c.kind), c.indent, c.gap, c.expr, more);
      WellWritten(w) && Head(v, w) == Render(v, c) && KindOf(w.v2) == c.kind
  {
    SpellingOf(c.kind);
    hide Word, KindOf, IsSpace, Spelling;
  }

  lemma WrittenIs(v: Surface, u: Unit)
    requires GoodUnit(v, u)
    ensures WellWritten(WrittenOf(v, u)) && UnitOf(v, WrittenOf(v, u)) == u
  {
    hide Match, Word, KindOf, IsSpace, GoodClause, Render, Head, WellWritten;
    MatchSound(v, u.lines[0]);
    ClauseWritten(v, Match(v, u.lines[0]).value, u.lines[1..]);
    assert u.lines == [u.lines[0]] + u.lines[1..];
  }

  lemma IsHeadExactly(v: Surface, line: string)
    ensures IsHead(v, line) <==> Match(v, line).Some?
  {
    if IsHead(v, line) {
      var c :| WellWritten(c) && Head(v, c) == line;
      HeadMatches(v, c);
    }
    hide Match, WellWritten;
    if Match(v, line).Some? {
      var u := Unit(Match(v, line).value.kind, [line]);
      WrittenIs(v, u);
      assert [Head(v, WrittenOf(v, u))] + WrittenOf(v, u).more == [line];
      assert ([Head(v, WrittenOf(v, u))] + WrittenOf(v, u).more)[0] == line;
    }
  }

  lemma UnitsAreGood(v: Surface, w: Surface, cs: seq<Written>)
    requires AllWritten(cs)
    ensures AllGood(v, UnitsOf(v, cs)) && Rename(v, w, UnitsOf(v, cs)) == UnitsOf(w, cs)
  {
    hide GoodUnit, UnitOf, RenameUnit, WellWritten;
    forall i | 0 <= i < |cs|
      ensures GoodUnit(v, UnitOf(v, cs[i])) && RenameUnit(v, w, UnitOf(v, cs[i])) == UnitOf(w, cs[i])
    {
      UnitIsGood(v, w, cs[i]);
    }
  }

  lemma {:induction false} FlatIsTexts(v: Surface, cs: seq<Written>)
    ensures Flat(UnitsOf(v, cs)) == Texts(v, cs)
  {
    hide Head;
    if cs != [] {
      FlatIsTexts(v, cs[1..]);
      assert UnitsOf(v, cs)[1..] == UnitsOf(v, cs[1..]);
    }
  }

  // Choosing by keyword is choosing by class.
  ghost predicate SameChoice(words: set<string>, classes: set<int>) {
    forall c: Written :: Spelling(c.v2, c.v3) ==> (c.v2 in words <==> Class(KindOf(c.v2)) in classes)
  }

  lemma {:induction false} PickIsKeep(v: Surface, cs: seq<Written>, words: set<string>, classes: set<int>)
    requires AllWritten(cs) && SameChoice(words, classes)
    ensures AllWritten(Pick(cs, words)) && Keep(UnitsOf(v, cs), classes) == UnitsOf(v, Pick(cs, words))
  {
    hide Head, Class, KindOf;
    if cs != [] {
      PickIsKeep(v, cs[1..], words, classes);
      assert UnitsOf(v, cs)[1..] == UnitsOf(v, cs[1..]);
      assert WellWritten(cs[0]);
      hide WellWritten;
    }
  }

  lemma Choices()
    ensures SameChoice({"fx"}, {1}) && SameChoice({"req", "ens", "inv", "dec"}, {0, 2})
    ensures SameChoice({"req", "ens", "inv"}, {0}) && SameChoice({"dec"}, {2})
  {
  }

  // ---------------------------------------------------------------------
  // Files

  function ItemOf(v: Surface, block: Block): Item {
    match block
    case Line(text) => Plain(text)
    case Contract(cs) => Clauses(UnitsOf(v, cs))
  }

  function ItemsOf(v: Surface, blocks: seq<Block>): (items: seq<Item>)
    ensures |items| == |blocks| && forall i :: 0 <= i < |blocks| ==> items[i] == ItemOf(v, blocks[i])
  {
    if blocks == [] then [] else [ItemOf(v, blocks[0])] + ItemsOf(v, blocks[1..])
  }

  lemma CompleteIsGood(v: Surface, cs: seq<Written>, atEnd: bool)
    requires Complete(v, cs, atEnd)
    ensures AllWritten(cs) && GoodUnits(v, UnitsOf(v, cs), atEnd)
  {
    UnitsAreGood(v, v, cs);
    hide Match, Head, WellWritten, Delta, Closes, Open, GoodUnits, AllGood;
    var units := UnitsOf(v, cs);
    forall i | 0 <= i < |units|
      ensures ClosedUnit(units[i]) || (atEnd && i == |units| - 1 && OpenUnit(units[i]))
    {
      assert units[i].lines[0] == Head(v, cs[i]) && units[i].lines[1..] == cs[i].more;
    }
    RunShapeGood(v, units, atEnd);
  }

  lemma GoodIsComplete(v: Surface, cs: seq<Written>, atEnd: bool)
    requires AllWritten(cs) && GoodUnits(v, UnitsOf(v, cs), atEnd)
    ensures Complete(v, cs, atEnd)
  {
    hide Match, Head, WellWritten, Delta, Closes, Open, GoodUnits, AllGood;
    var units := UnitsOf(v, cs);
    RunShapeOf(v, units, atEnd);
    forall i | 0 <= i < |cs|
      ensures Closes(Delta(Head(v, cs[i])), cs[i].more)
        || (atEnd && i == |cs| - 1 && Open(Delta(Head(v, cs[i])), cs[i].more))
    {
      assert units[i].lines[0] == Head(v, cs[i]) && units[i].lines[1..] == cs[i].more;
    }
  }

  lemma {:induction false} DividedIsWell(v: Surface, blocks: seq<Block>)
    requires Divided(v, blocks)
    ensures Well(v, ItemsOf(v, blocks)) && Lines(ItemsOf(v, blocks)) == Source(v, blocks)
  {
    hide Match, Complete, GoodUnits, IsHead, Texts, Flat;
    if blocks != [] {
      DividedIsWell(v, blocks[1..]);
      assert ItemsOf(v, blocks)[1..] == ItemsOf(v, blocks[1..]);
      match blocks[0] {
        case Line(text) => IsHeadExactly(v, text);
        case Contract(cs) =>
          CompleteIsGood(v, cs, blocks[1..] == []);
          FlatIsTexts(v, cs);
      }
    }
  }

  function WrittensOf(v: Surface, units: seq<Unit>): (cs: seq<Written>)
    requires forall i :: 0 <= i < |units| ==> GoodUnit(v, units[i])
    ensures |cs| == |units| && forall i :: 0 <= i < |units| ==> cs[i] == WrittenOf(v, units[i])
  {
    if units == [] then [] else [WrittenOf(v, units[0])] + WrittensOf(v, units[1..])
  }

  lemma WrittensAre(v: Surface, units: seq<Unit>)
    requires AllGood(v, units)
    ensures AllWritten(WrittensOf(v, units)) && UnitsOf(v, WrittensOf(v, units)) == units
  {
    hide GoodUnit, UnitOf, WrittenOf, WellWritten;
    forall i | 0 <= i < |units|
      ensures WellWritten(WrittenOf(v, units[i])) && UnitOf(v, WrittenOf(v, units[i])) == units[i]
    {
      WrittenIs(v, units[i]);
    }
  }

  lemma {:induction false} WellIsDivided(v: Surface, items: seq<Item>) returns (blocks: seq<Block>)
    requires Well(v, items)
    ensures Divided(v, blocks) && ItemsOf(v, blocks) == items
  {
    hide Match, Complete, GoodUnits, IsHead, GoodUnit, AllWritten;
    if items == [] {
      blocks := [];
    } else {
      var rest := WellIsDivided(v, items[1..]);
      match items[0] {
        case Plain(line) =>
          IsHeadExactly(v, line);
          blocks := [Line(line)] + rest;
        case Clauses(units) =>
          GoodUnitsAll(v, units, items[1..] == []);
          WrittensAre(v, units);
          GoodIsComplete(v, WrittensOf(v, units), items[1..] == []);
          blocks := [Contract(WrittensOf(v, units))] + rest;
      }
      assert blocks[1..] == rest;
      assert items == [items[0]] + items[1..];
    }
  }

  /** Every file divides, on either surface, into lines that begin no clause and
      contracts spelled in the keywords of that surface. */
  lemma EveryFileDivides(v: Surface, lines: seq<string>) returns (blocks: seq<Block>)
    ensures Divided(v, blocks) && Source(v, blocks) == lines
  {
    hide Divided, Source, Parse, Lines;
    ParseSound(v, lines);
    blocks := WellIsDivided(v, Parse(v, lines));
    DividedIsWell(v, blocks);
  }

  lemma ContractToV3(cs: seq<Written>)
    requires AllWritten(cs)
    ensures AllGood(V2, UnitsOf(V2, cs)) && Flat(RunToV3(UnitsOf(V2, cs))) == InV3(Contract(cs))
  {
    hide Keep, Flat, Texts, Rename, Pick, GoodUnit, WellWritten;
    UnitsAreGood(V2, V3, cs);
    Choices();
    var rows, others := Pick(cs, {"fx"}), Pick(cs, {"req", "ens", "inv", "dec"});
    PickIsKeep(V2, cs, {"fx"}, {1});
    PickIsKeep(V2, cs, {"req", "ens", "inv", "dec"}, {0, 2});
    hide SameChoice;
    UnitsAreGood(V2, V3, rows);
    UnitsAreGood(V2, V3, others);
    RenameConcat(V2, V3, UnitsOf(V2, rows), UnitsOf(V2, others));
    FlatConcat(UnitsOf(V3, rows), UnitsOf(V3, others));
    FlatIsTexts(V3, rows);
    FlatIsTexts(V3, others);
  }

  lemma ContractToV2(cs: seq<Written>)
    requires AllWritten(cs)
    ensures AllGood(V3, UnitsOf(V3, cs)) && Flat(RunToV2(UnitsOf(V3, cs))) == InV2(Contract(cs))
  {
    hide Keep, Flat, Texts, Rename, Pick, GoodUnit, WellWritten;
    UnitsAreGood(V3, V2, cs);
    Choices();
    var heads, rows, tails := Pick(cs, {"req", "ens", "inv"}), Pick(cs, {"fx"}), Pick(cs, {"dec"});
    PickIsKeep(V3, cs, {"req", "ens", "inv"}, {0});
    PickIsKeep(V3, cs, {"fx"}, {1});
    PickIsKeep(V3, cs, {"dec"}, {2});
    hide SameChoice;
    UnitsAreGood(V3, V2, heads);
    UnitsAreGood(V3, V2, rows);
    UnitsAreGood(V3, V2, tails);
    RenameConcat(V3, V2, UnitsOf(V3, heads), UnitsOf(V3, rows));
    RenameConcat(V3, V2, UnitsOf(V3, heads) + UnitsOf(V3, rows), UnitsOf(V3, tails));
    FlatConcat(UnitsOf(V2, heads), UnitsOf(V2, rows));
    FlatConcat(UnitsOf(V2, heads) + UnitsOf(V2, rows), UnitsOf(V2, tails));
    FlatIsTexts(V2, heads);
    FlatIsTexts(V2, rows);
    FlatIsTexts(V2, tails);
  }

  lemma {:induction false} ItemsInV3(blocks: seq<Block>)
    requires GoodItems(V2, ItemsOf(V2, blocks)) && forall i :: 0 <= i < |blocks| && blocks[i].Contract? ==> AllWritten(blocks[i].clauses)
    ensures Lines(ItemsToV3(ItemsOf(V2, blocks))) == AllInV3(blocks)
  {
    hide RunToV3, Flat, AllGood, AllWritten;
    if blocks != [] {
      var items := ItemsOf(V2, blocks);
      assert items[1..] == ItemsOf(V2, blocks[1..]);
      ItemsToV3Cons(items);
      ItemsInV3(blocks[1..]);
      if blocks[0].Contract? { ContractToV3(blocks[0].clauses); }
      assert Text(ItemToV3(items[0])) == InV3(blocks[0]);
    }
  }

  lemma {:induction false} ItemsInV2(blocks: seq<Block>)
    requires GoodItems(V3, ItemsOf(V3, blocks)) && forall i :: 0 <= i < |blocks| && blocks[i].Contract? ==> AllWritten(blocks[i].clauses)
    ensures Lines(ItemsToV2(ItemsOf(V3, blocks))) == AllInV2(blocks)
  {
    hide RunToV2, Flat, AllGood, AllWritten;
    if blocks != [] {
      var items := ItemsOf(V3, blocks);
      assert items[1..] == ItemsOf(V3, blocks[1..]);
      assert forall i :: 0 <= i < |items[1..]| ==> items[1..][i] == items[i + 1];
      assert ItemsToV2(items)[1..] == ItemsToV2(items[1..]);
      ItemsInV2(blocks[1..]);
      if blocks[0].Contract? { ContractToV2(blocks[0].clauses); }
      assert Text(ItemToV2(items[0])) == InV2(blocks[0]);
    }
  }

  lemma {:induction false} DividedWritten(v: Surface, blocks: seq<Block>)
    requires Divided(v, blocks)
    ensures forall i :: 0 <= i < |blocks| && blocks[i].Contract? ==> AllWritten(blocks[i].clauses)
  {
    hide WellWritten, IsHead, Closes, Open;
    if blocks != [] {
      DividedWritten(v, blocks[1..]);
      forall i | 0 <= i < |blocks| && blocks[i].Contract?
        ensures AllWritten(blocks[i].clauses)
      {
        if i > 0 { assert blocks[i] == blocks[1..][i - 1]; }
      }
    }
  }

  /** The version 3 lines of a file: each contract with its effect rows in front and its
      keywords respelled, every further line of a clause kept, and every other line kept
      up to the keyword that trails a brace. */
  lemma ToV3Means(blocks: seq<Block>)
    requires Divided(V2, blocks)
    ensures LinesToV3(Source(V2, blocks)) == AllInV3(blocks)
  {
    hide Divided, Parse, Lines, Source, AllInV3;
    DividedIsWell(V2, blocks);
    DividedWritten(V2, blocks);
    ParseWell(V2, ItemsOf(V2, blocks));
    WellIsGood(V2, ItemsOf(V2, blocks));
    ItemsInV3(blocks);
  }

  /** The version 2 lines likewise: contract clauses, then rows, then measures. */
  lemma ToV2Means(blocks: seq<Block>)
    requires Divided(V3, blocks)
    ensures LinesToV2(Source(V3, blocks)) == AllInV2(blocks)
  {
    hide Divided, Parse, Lines, Source, AllInV2;
    DividedIsWell(V3, blocks);
    DividedWritten(V3, blocks);
    ParseWell(V3, ItemsOf(V3, blocks));
    WellIsGood(V3, ItemsOf(V3, blocks));
    ItemsInV2(blocks);
  }

  lemma OneClauseDivided(v: Surface, c: Written)
    requires WellWritten(c) && c.more == []
    ensures Divided(v, [Contract([c])]) && Source(v, [Contract([c])]) == [Head(v, c)]
  {
    var cs := [c];
    hide WellWritten, Delta, Head;
    assert Closes(Delta(Head(v, c)), c.more) || Open(Delta(Head(v, c)), c.more);
    assert Texts(v, cs) == [Head(v, c)] + c.more + Texts(v, cs[1..]);
    var blocks := [Contract(cs)];
    assert blocks[1..] == [];
    assert Source(v, blocks) == Texts(v, cs) + Source(v, blocks[1..]);
  }

  lemma OnePicked(c: Written, words: set<string>)
    ensures Pick([c], words) == if c.v2 in words then [c] else []
  {
    assert [c][1..] == [];
  }

  lemma OneClauseWritten(c: Written)
    requires WellWritten(c) && c.more == []
    ensures InV3(Contract([c])) == [Head(V3, c)] && InV2(Contract([c])) == [Head(V2, c)]
  {
    assert Spelling(c.v2, c.v3);
    hide Head, WellWritten;
    OnePicked(c, {"fx"});
    OnePicked(c, {"req", "ens", "inv", "dec"});
    OnePicked(c, {"req", "ens", "inv"});
    OnePicked(c, {"dec"});
    assert forall v :: Texts(v, [c]) == [Head(v, c)] + c.more + Texts(v, [c][1..]);
  }

  /** One clause on one line: exactly its keyword changes, whatever its expression. */
  lemma OneClause(v2: string, v3: string, indent: string, gap: string, expr: string)
    requires Spelling(v2, v3) && AllSpace(indent) && AllSpace(gap) && gap != "" && (expr != "" ==> !IsSpace(expr[0]))
    ensures LinesToV3([indent + v2 + gap + expr]) == [indent + v3 + gap + expr]
    ensures LinesToV2([indent + v3 + gap + expr]) == [indent + v2 + gap + expr]
  {
    hide LinesToV3, LinesToV2, IsSpace;
    var c := Written(v2, v3, indent, gap, expr, []);
    var blocks := [Contract([c])];
    OneClauseDivided(V2, c);
    OneClauseDivided(V3, c);
    OneClauseWritten(c);
    ToV3Means(blocks);
    ToV2Means(blocks);
    assert blocks[1..] == [];
    assert AllInV3(blocks) == InV3(blocks[0]) + AllInV3(blocks[1..]);
    assert AllInV2(blocks) == InV2(blocks[0]) + AllInV2(blocks[1..]);
  }
}

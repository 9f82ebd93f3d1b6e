/** The round trip on whole texts, and the tool's loops. */
module MigrateText {
  import opened ClauseText
  import opened TrailingInvariant
  import opened ClauseUnits
  import opened Migrate
  import opened MigrateFiles
  import opened MigrateRoundTrip
  import opened MigrateExact
  import opened MigrateMixed

  /** Going to version 3 and back restores every line exactly when
      no plain line is a version 3 clause or row;
      every run is already contract clauses, then rows, then measures, and no
      plain line holds a trailing `} keeps`;
      and the file does not end in an unclosed row that has other clauses in its run. */
  ghost predicate Restorable(items: seq<Item>) {
    V2Only(items) && Reversible(items) && RowsStay(items)
  }

  lemma LinesRestoredExactly(lines: seq<string>)
    ensures LinesToV2(LinesToV3(lines)) == lines <==> Restorable(ParseItems(V2, lines))
  {
    hide LinesToV2, LinesToV3, V2Only, Reversible, RowsStay;
    if !V2Only(ParseItems(V2, lines)) {
      MixedNotRestored(lines);
    } else if RowsStay(ParseItems(V2, lines)) {
      WhenRowsStay(lines);
    } else {
      NotRestored(lines);
    }
  }

  // ---------------------------------------------------------------------
  // Texts

  // Length of the first line.
  function Break(t: string): (n: nat)
    ensures n <= |t| && '\n' !in t[..n] && (n < |t| ==> t[n] == '\n')
  {
    if t == "" || t[0] == '\n' then 0
    else
      var n := 1 + Break(t[1..]);
      assert t[..n] == [t[0]] + t[1..][..n - 1];
      n
  }

  // `text.split("\n")`
  function Split(t: string): (ls: seq<string>)
    ensures ls != []
    decreases |t|
  {
    var n := Break(t);
    if n == |t| then [t] else [t[..n]] + Split(t[n + 1..])
  }

  // `"\n".join(lines)`
  function Join(ls: seq<string>): string
    requires ls != []
  {
    if |ls| == 1 then ls[0] else ls[0] + "\n" + Join(ls[1..])
  }

  lemma {:induction false} JoinSplit(t: string)
    ensures Join(Split(t)) == t
    decreases |t|
  {
    var n := Break(t);
    if n < |t| {
      JoinSplit(t[n + 1..]);
      var ls := Split(t);
      assert ls[1..] == Split(t[n + 1..]);
      assert t == t[..n] + "\n" + t[n + 1..];
    }
  }

  ghost predicate OneLiners(ls: seq<string>) {
    forall i :: 0 <= i < |ls| ==> '\n' !in ls[i]
  }

  lemma {:induction false} BreakAt(l: string, t: string)
    requires '\n' !in l && (t != "" ==> t[0] == '\n')
    ensures Break(l + t) == |l|
  {
    if l == "" {
      assert l + t == t;
    } else {
      BreakAt(l[1..], t);
      assert (l + t)[0] == l[0] && (l + t)[1..] == l[1..] + t;
    }
  }

  lemma SplitCons(l: string, t: string)
    requires '\n' !in l
    ensures Split(l + "\n" + t) == [l] + Split(t)
  {
    BreakAt(l, "\n" + t);
    hide Break;
    var all := l + "\n" + t;
    assert all == l + ("\n" + t);
    assert all[|l| + 1..] == t && all[..|l|] == l;
  }

  lemma {:induction false} SplitJoin(ls: seq<string>)
    requires ls != [] && OneLiners(ls)
    ensures Split(Join(ls)) == ls
  {
    if |ls| == 1 {
      BreakAt(ls[0], "");
      assert ls[0] + "" == ls[0];
    } else {
      var rest := ls[1..];
      assert forall i :: 0 <= i < |rest| ==> rest[i] == ls[i + 1];
      SplitJoin(rest);
      SplitCons(ls[0], Join(rest));
    }
  }

  lemma {:induction false} SplitOneLiners(t: string)
    ensures OneLiners(Split(t))
    decreases |t|
  {
    var n := Break(t);
    if n < |t| {
      SplitOneLiners(t[n + 1..]);
      var rest := Split(t[n + 1..]);
      forall i | 0 <= i < |Split(t)|
        ensures '\n' !in Split(t)[i]
      {
        if i > 0 { assert Split(t)[i] == rest[i - 1]; }
      }
    } else {
      assert t[..n] == t;
    }
  }

  // ---------------------------------------------------------------------
  // Rewriting makes no new line breaks

  lemma {:induction false} SubstituteOneLine(w: string, w': string, s: string)
    requires '\n' !in s && '\n' !in w'
    ensures '\n' !in Substitute(w, w', s)
    decreases |s|
  {
    if s != "" {
      if TrailingAt(w, s) {
        TrailingLength(w, s);
        SubstituteOneLine(w, w', s[1 + Spaces(s[1..]) + |w| + 1..]);
      } else {
        SubstituteOneLine(w, w', s[1..]);
      }
    }
  }

  ghost predicate OneLineUnits(units: seq<Unit>) {
    forall i :: 0 <= i < |units| ==> OneLiners(units[i].lines)
  }

  lemma OneLinersConcat(a: seq<string>, b: seq<string>)
    ensures OneLiners(a + b) <==> OneLiners(a) && OneLiners(b)
  {
    var c := a + b;
    assert forall i :: 0 <= i < |a| ==> c[i] == a[i];
    assert forall i :: 0 <= i < |b| ==> c[|a| + i] == b[i];
  }

  lemma {:induction false} FlatOneLiners(units: seq<Unit>)
    ensures OneLiners(Flat(units)) <==> OneLineUnits(units)
  {
    hide OneLiners;
    if units == [] {
      assert OneLiners(Flat(units)) by { NoLines(); }
    } else {
      var rest := units[1..];
      FlatOneLiners(rest);
      OneLinersConcat(units[0].lines, Flat(rest));
      assert units == [units[0]] + rest;
      assert forall i :: 0 <= i < |rest| ==> rest[i] == units[i + 1];
    }
  }

  lemma NoLines()
    ensures OneLiners([])
  {
  }

  lemma WordOneLine(v: Surface, k: Kind)
    ensures '\n' !in Word(v, k)
  {
  }

  lemma RenderOneLine(from: Surface, to: Surface, c: Clause)
    requires '\n' !in Render(from, c)
    ensures '\n' !in Render(to, c)
  {
    WordOneLine(to, c.kind);
    hide Word;
    var l := Render(from, c);
    assert forall x :: x in c.indent || x in c.gap || x in c.expr ==> x in l;
  }

  lemma RenameOneLine(from: Surface, to: Surface, u: Unit)
    requires GoodUnit(from, u) && OneLiners(u.lines)
    ensures OneLiners(RenameUnit(from, to, u).lines)
  {
    hide Match, Render;
    MatchSound(from, u.lines[0]);
    RenderOneLine(from, to, Match(from, u.lines[0]).value);
    var r := RenameUnit(from, to, u);
    assert forall i :: 0 < i < |r.lines| ==> r.lines[i] == u.lines[i];
  }

  lemma RenameOneLiners(from: Surface, to: Surface, units: seq<Unit>)
    requires AllGood(from, units) && OneLineUnits(units)
    ensures OneLineUnits(Rename(from, to, units))
  {
    hide GoodUnit, OneLiners, RenameUnit;
    forall i | 0 <= i < |units|
      ensures OneLiners(RenameUnit(from, to, units[i]).lines)
    {
      RenameOneLine(from, to, units[i]);
    }
  }

  lemma PartOneLine(units: seq<Unit>, part: seq<Unit>)
    requires OneLineUnits(units) && forall i :: 0 <= i < |part| ==> part[i] in units
    ensures OneLineUnits(part)
  {
    hide OneLiners;
  }

  lemma RunToV3OneLine(units: seq<Unit>)
    requires AllGood(V2, units) && OneLineUnits(units)
    ensures OneLineUnits(RunToV3(units))
  {
    KeepMembers(units, {1});
    KeepMembers(units, {0, 2});
    hide GoodUnit, OneLineUnits, RenameUnit, Keep, Rename;
    OrderRename(V2, V3, units);
    PartOneLine(units, Order3(units));
    RenameOneLiners(V2, V3, Order3(units));
  }

  lemma RunToV2OneLine(units: seq<Unit>)
    requires AllGood(V3, units) && OneLineUnits(units)
    ensures OneLineUnits(RunToV2(units))
  {
    hide GoodUnit, OneLineUnits, RenameUnit, Keep, Rename;
    Order2Members(units);
    OrderRename(V3, V2, units);
    PartOneLine(units, Order2(units));
    RenameOneLiners(V3, V2, Order2(units));
  }

  lemma ToV3OneLine(item: Item)
    requires GoodItem(V2, item) && OneLiners(Text(item))
    ensures OneLiners(Text(ItemToV3(item)))
  {
    hide RunToV3, Flat, Substitute, GoodUnit;
    match item {
      case Plain(l) =>
        assert Text(item)[0] == l;
        SubstituteOneLine(Word(V2, Inv), Word(V3, Inv), l);
      case Clauses(units) =>
        FlatOneLiners(units);
        RunToV3OneLine(units);
        FlatOneLiners(RunToV3(units));
    }
  }

  lemma ToV2OneLine(item: Item)
    requires GoodItem(V3, item) && OneLiners(Text(item))
    ensures OneLiners(Text(ItemToV2(item)))
  {
    hide RunToV2, Flat, Substitute, GoodUnit;
    match item {
      case Plain(l) =>
        assert Text(item)[0] == l;
        SubstituteOneLine(Word(V3, Inv), Word(V2, Inv), l);
      case Clauses(units) =>
        FlatOneLiners(units);
        RunToV2OneLine(units);
        FlatOneLiners(RunToV2(units));
    }
  }

  lemma {:induction false} LinesOneLiners(items: seq<Item>)
    ensures OneLiners(Lines(items)) <==> forall i :: 0 <= i < |items| ==> OneLiners(Text(items[i]))
  {
    hide OneLiners, Text;
    if items == [] {
      NoLines();
    } else {
      var rest := items[1..];
      LinesOneLiners(rest);
      OneLinersConcat(Text(items[0]), Lines(rest));
      assert forall i :: 0 <= i < |rest| ==> rest[i] == items[i + 1];
      assert items == [items[0]] + rest;
    }
  }

  lemma RunTextNonempty(v: Surface, units: seq<Unit>)
    requires units != [] && AllGood(v, units)
    ensures Flat(units) != []
  {
    assert GoodUnit(v, units[0]);
  }

  lemma LinesToV3OneLine(lines: seq<string>)
    requires lines != [] && OneLiners(lines)
    ensures LinesToV3(lines) != [] && OneLiners(LinesToV3(lines))
  {
    var items := ParseItems(V2, lines);
    hide OneLiners, Text, ItemToV3, Parse, GoodItem;
    var there := ItemsToV3(items);
    LinesOneLiners(items);
    forall i | 0 <= i < |there|
      ensures OneLiners(Text(there[i]))
    {
      ToV3OneLine(items[i]);
    }
    LinesOneLiners(there);
    ToV3Nonempty(items);
  }

  lemma ToV3Nonempty(items: seq<Item>)
    requires Well(V2, items) && GoodItems(V2, items) && items != []
    ensures Lines(ItemsToV3(items)) != []
  {
    hide RunToV3, Flat, GoodUnits;
    if items[0].Clauses? {
      var units := items[0].units;
      OrderNonempty(units);
      RunThereSize(units, {0});
      RunTextNonempty(V3, RunToV3(units));
    }
  }

  lemma LinesToV2OneLine(lines: seq<string>)
    requires lines != [] && OneLiners(lines)
    ensures LinesToV2(lines) != [] && OneLiners(LinesToV2(lines))
  {
    var items := ParseItems(V3, lines);
    hide OneLiners, Text, ItemToV2, Parse, GoodItem;
    var there := ItemsToV2(items);
    LinesOneLiners(items);
    forall i | 0 <= i < |there|
      ensures OneLiners(Text(there[i]))
    {
      ToV2OneLine(items[i]);
    }
    LinesOneLiners(there);
    ToV2Nonempty(items);
  }

  lemma ToV2Nonempty(items: seq<Item>)
    requires Well(V3, items) && GoodItems(V3, items) && items != []
    ensures Lines(ItemsToV2(items)) != []
  {
    hide RunToV2, Flat, GoodUnits;
    if items[0].Clauses? { BackHead(items[0].units); }
  }

  // `to_v3` and `to_v2`
  function ToV3(text: string): string {
    LinesToV3Nonempty(text);
    Join(LinesToV3(Split(text)))
  }

  lemma LinesToV3Nonempty(text: string)
    ensures LinesToV3(Split(text)) != [] && OneLiners(LinesToV3(Split(text)))
    ensures LinesToV2(Split(text)) != [] && OneLiners(LinesToV2(Split(text)))
  {
    hide LinesToV3, LinesToV2, Split, OneLiners;
    SplitOneLiners(text);
    LinesToV3OneLine(Split(text));
    LinesToV2OneLine(Split(text));
  }

  function ToV2(text: string): string {
    LinesToV3Nonempty(text);
    Join(LinesToV2(Split(text)))
  }

  /** `to_v2(to_v3(x)) == x` byte for byte, exactly for the restorable texts. */
  lemma TextRestoredExactly(text: string)
    ensures ToV2(ToV3(text)) == text <==> Restorable(ParseItems(V2, Split(text)))
  {
    hide LinesToV3, LinesToV2, Split, Join, OneLiners, Restorable;
    var lines := Split(text);
    LinesToV3Nonempty(text);
    var there := LinesToV3(lines);
    SplitJoin(there);
    LinesToV3Nonempty(Join(there));
    var back := LinesToV2(there);
    SplitJoin(back);
    JoinSplit(text);
    LinesRestoredExactly(lines);
  }
}

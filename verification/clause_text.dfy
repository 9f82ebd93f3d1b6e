/** One line of Thermite source: clause lines, delimiter depth, and the
    trailing invariant of a type. */
module ClauseText {
  import opened Wrappers

  // The two clause surfaces, and the five clause kinds they spell.
  datatype Surface = V2 | V3
  datatype Kind = Req | Ens | Inv | Fx | Dec

  function Word(v: Surface, k: Kind): (w: string)
    ensures |w| > 0 && !IsSpace(w[0]) && w[0] != '}'
  {
    match k
    case Req => if v == V2 then "req" else "requires"
    case Ens => if v == V2 then "ens" else "ensures"
    case Inv => if v == V2 then "inv" else "keeps"
    case Fx => if v == V2 then "fx" else "!"
    case Dec => if v == V2 then "dec" else "measures"
  }

  // What `\s` matches.
  predicate IsSpace(c: char) {
    || c in " \t\n\r"
    || c == 0x0B as char || c == 0x0C as char
    || (0x1C as char <= c <= 0x1F as char)
    || c == 0x85 as char || c == 0xA0 as char || c == 0x1680 as char
    || (0x2000 as char <= c <= 0x200A as char)
    || c == 0x2028 as char || c == 0x2029 as char || c == 0x202F as char
    || c == 0x205F as char || c == 0x3000 as char
  }

  // Length of the leading white space.
  function Spaces(s: string): (n: nat)
    ensures n <= |s|
    ensures forall i :: 0 <= i < n ==> IsSpace(s[i])
    ensures n < |s| ==> !IsSpace(s[n])
  {
    if s == "" || !IsSpace(s[0]) then 0 else 1 + Spaces(s[1..])
  }

  lemma SpacesAre(s: string, n: nat)
    requires n <= |s| && (forall i :: 0 <= i < n ==> IsSpace(s[i])) && (n < |s| ==> !IsSpace(s[n]))
    ensures Spaces(s) == n
  {
  }

  // ---------------------------------------------------------------------
  // Clause lines

  // `^(\s*)(keyword)(\s+)(.*)$`
  datatype Clause = Clause(indent: string, kind: Kind, gap: string, expr: string)

  predicate AllSpace(s: string) {
    forall i :: 0 <= i < |s| ==> IsSpace(s[i])
  }

  predicate GoodClause(c: Clause) {
    AllSpace(c.indent) && AllSpace(c.gap) && c.gap != "" && (c.expr != "" ==> !IsSpace(c.expr[0]))
  }

  function Render(v: Surface, c: Clause): string {
    c.indent + Word(v, c.kind) + c.gap + c.expr
  }

  predicate StartsWithWord(s: string, w: string) {
    |s| > |w| && s[..|w|] == w && IsSpace(s[|w|])
  }

  function MatchKind(v: Surface, k: Kind, line: string): Option<Clause> {
    var i := Spaces(line);
    var rest, w := line[i..], Word(v, k);
    if !StartsWithWord(rest, w) then None
    else
      var tail := rest[|w|..];
      var g := Spaces(tail);
      Some(Clause(line[..i], k, tail[..g], tail[g..]))
  }

  function Match(v: Surface, line: string): Option<Clause> {
    if MatchKind(v, Req, line).Some? then MatchKind(v, Req, line)
    else if MatchKind(v, Ens, line).Some? then MatchKind(v, Ens, line)
    else if MatchKind(v, Inv, line).Some? then MatchKind(v, Inv, line)
    else if MatchKind(v, Fx, line).Some? then MatchKind(v, Fx, line)
    else MatchKind(v, Dec, line)
  }

  lemma Pieces(line: string, i: nat, n: nat, g: nat)
    requires i + n + g <= |line|
    ensures line[..i] + line[i..][..n] + line[i..][n..][..g] + line[i..][n..][g..] == line
  {
  }

  lemma MatchKindSound(v: Surface, k: Kind, line: string)
    ensures var m := MatchKind(v, k, line);
      m.Some? ==> GoodClause(m.value) && m.value.kind == k && Render(v, m.value) == line
  {
    hide IsSpace, Word, Spaces;
    if MatchKind(v, k, line).Some? {
      var i := Spaces(line);
      var rest, w := line[i..], Word(v, k);
      var tail := rest[|w|..];
      var g := Spaces(tail);
      assert IsSpace(tail[0]);
      Pieces(line, i, |w|, g);
    }
  }

  // A matched line is its clause, written out.
  lemma MatchSound(v: Surface, line: string)
    ensures var m := Match(v, line);
      m.Some? ==> GoodClause(m.value) && Render(v, m.value) == line
  {
    hide MatchKind, Render, GoodClause;
    MatchKindSound(v, Req, line);
    MatchKindSound(v, Ens, line);
    MatchKindSound(v, Inv, line);
    MatchKindSound(v, Fx, line);
    MatchKindSound(v, Dec, line);
  }

  lemma SpacesOfConcat(a: string, b: string)
    requires AllSpace(a) && (b != "" ==> !IsSpace(b[0]))
    ensures Spaces(a + b) == |a|
  {
    SpacesAre(a + b, |a|);
  }

  lemma Parts(a: string, w: string, g: string, e: string)
    ensures (a + w + g + e)[..|a|] == a && (a + w + g + e)[|a|..] == w + g + e == w + (g + e)
    ensures (w + g + e)[..|w|] == w && (w + g + e)[|w|..] == g + e
    ensures (g + e)[..|g|] == g && (g + e)[|g|..] == e
    ensures a + w + g + e == a + (w + g + e)
  {
  }

  lemma MatchKindComplete(v: Surface, c: Clause)
    requires GoodClause(c)
    ensures MatchKind(v, c.kind, Render(v, c)) == Some(c)
  {
    hide IsSpace, Word, Spaces;
    var w := Word(v, c.kind);
    Parts(c.indent, w, c.gap, c.expr);
    SpacesOfConcat(c.indent, w + c.gap + c.expr);
    SpacesOfConcat(c.gap, c.expr);
    assert (w + c.gap + c.expr)[|w|] == c.gap[0];
  }

  // No word of a surface, followed by a space, begins like another.
  lemma WordsApart(v: Surface, k: Kind, k': Kind, s: string)
    requires StartsWithWord(s, Word(v, k)) && StartsWithWord(s, Word(v, k'))
    ensures k == k'
  {
    var w, w' := Word(v, k), Word(v, k');
    assert w[0] == s[0] == w'[0];
  }

  lemma MatchIsKind(v: Surface, k: Kind, line: string)
    requires MatchKind(v, k, line).Some?
    ensures Match(v, line) == MatchKind(v, k, line)
  {
    hide IsSpace, Word;
    forall k' | MatchKind(v, k', line).Some?
      ensures k' == k
    {
      WordsApart(v, k, k', line[Spaces(line)..]);
    }
  }

  // A written clause parses back to itself.
  lemma MatchComplete(v: Surface, c: Clause)
    requires GoodClause(c)
    ensures Match(v, Render(v, c)) == Some(c)
  {
    MatchKindComplete(v, c);
    MatchIsKind(v, c.kind, Render(v, c));
  }

  lemma SurfacesApart(k: Kind, k': Kind, s: string)
    requires StartsWithWord(s, Word(V2, k))
    ensures !StartsWithWord(s, Word(V3, k'))
  {
    assert forall i :: 0 <= i < |Word(V2, k)| ==> s[i] == Word(V2, k)[i];
  }

  // A clause line of one surface is not one of the other.
  lemma NotBothSurfaces(line: string)
    ensures Match(V2, line).None? || Match(V3, line).None?
  {
    hide IsSpace, Word;
    forall k, k' | MatchKind(V2, k, line).Some?
      ensures MatchKind(V3, k', line).None?
    {
      SurfacesApart(k, k', line[Spaces(line)..]);
    }
  }

  // ---------------------------------------------------------------------
  // Delimiter depth

  // What follows the string literal whose opening quote precedes `s`.
  function AfterString(s: string): (t: string)
    ensures |t| <= |s|
    decreases |s|
  {
    if s == "" then ""
    else if s[0] == '"' then s[1..]
    else if s[0] == '\\' then AfterString(if |s| >= 2 then s[2..] else "")
    else AfterString(s[1..])
  }

  predicate Opener(c: char) {
    c == '(' || c == '[' || c == '{'
  }

  predicate Closer(c: char) {
    c == ')' || c == ']' || c == '}'
  }

  // How a line changes the delimiter depth, ignoring comments and strings.
  function Delta(s: string): int
    decreases |s|
  {
    if s == "" then 0
    else if s[0] == '"' then Delta(AfterString(s[1..]))
    else if s[0] == '/' && |s| > 1 && s[1] == '/' then 0
    else if Opener(s[0]) then 1 + Delta(s[1..])
    else if Closer(s[0]) then -1 + Delta(s[1..])
    else Delta(s[1..])
  }

  predicate Neutral(c: char) {
    c != '"' && c != '/' && !Opener(c) && !Closer(c)
  }

  lemma {:induction false} NeutralPrefix(a: string, b: string)
    requires forall i :: 0 <= i < |a| ==> Neutral(a[i])
    ensures Delta(a + b) == Delta(b)
  {
    if a == "" {
      assert a + b == b;
    } else {
      NeutralPrefix(a[1..], b);
      assert (a + b)[1..] == a[1..] + b;
    }
  }

  lemma WordNeutral(v: Surface, k: Kind)
    ensures forall i :: 0 <= i < |Word(v, k)| ==> Neutral(Word(v, k)[i])
  {
  }

  lemma SpacesNeutral(a: string)
    requires AllSpace(a)
    ensures forall i :: 0 <= i < |a| ==> Neutral(a[i])
  {
  }

  // Renaming the keyword of a clause line does not change its depth.
  lemma RenameKeepsDelta(c: Clause)
    requires GoodClause(c)
    ensures Delta(Render(V2, c)) == Delta(Render(V3, c))
  {
    WordNeutral(V2, c.kind);
    WordNeutral(V3, c.kind);
    SpacesNeutral(c.indent);
    hide IsSpace, Word, Neutral, Delta;
    NeutralPrefix(c.indent + Word(V2, c.kind), c.gap + c.expr);
    NeutralPrefix(c.indent + Word(V3, c.kind), c.gap + c.expr);
    assert Render(V2, c) == (c.indent + Word(V2, c.kind)) + (c.gap + c.expr);
    assert Render(V3, c) == (c.indent + Word(V3, c.kind)) + (c.gap + c.expr);
  }

  function Tail(s: string, i: nat): string {
    if i <= |s| then s[i..] else ""
  }

  lemma DeltaAt(s: string, i: nat)
    requires i < |s|
    ensures var c, rest := s[i], Tail(s, i + 1);
      Delta(Tail(s, i)) ==
        if c == '"' then Delta(AfterString(rest))
        else if c == '/' && i + 1 < |s| && s[i + 1] == '/' then 0
        else if Opener(c) then 1 + Delta(rest)
        else if Closer(c) then -1 + Delta(rest)
        else Delta(rest)
  {
    assert s[i..][1..] == s[i + 1..];
  }

  lemma DeltaEnd(s: string, i: nat)
    requires i >= |s|
    ensures Delta(Tail(s, i)) == 0
  {
  }

  lemma AfterStringAt(s: string, i: nat)
    ensures AfterString(Tail(s, i)) ==
      if i >= |s| then Tail(s, i + 1)
      else if s[i] == '"' then Tail(s, i + 1)
      else if s[i] == '\\' then AfterString(Tail(s, i + 2))
      else AfterString(Tail(s, i + 1))
  {
    if i < |s| {
      assert s[i..][1..] == s[i + 1..];
      if i + 2 <= |s| { assert s[i..][2..] == s[i + 2..]; }
    }
  }

  // The inner loop of the scanner: from just past an opening quote to the closing one.
  method SkipString(text: string, start: nat) returns (i: nat)
    ensures i >= start
    ensures Tail(text, i + 1) == AfterString(Tail(text, start))
  {
    hide AfterString, Tail;
    i := start;
    while i < |text| && text[i] != '"'
      invariant i >= start
      invariant AfterString(Tail(text, i)) == AfterString(Tail(text, start))
    {
      AfterStringAt(text, i);
      i := i + if text[i] == '\\' then 2 else 1;
    }
    AfterStringAt(text, i);
  }

  // The scanner: an index into the text and a running depth.
  method Balance(text: string, start: int) returns (depth: int)
    ensures depth == start + Delta(text)
  {
    depth := start;
    var i, n := 0, |text|;
    assert Tail(text, 0) == text;
    hide Delta, AfterString, Tail;
    while i < n
      invariant depth + Delta(Tail(text, i)) == start + Delta(text)
    {
      var c := text[i];
      DeltaAt(text, i);
      if c == '"' {
        i := SkipString(text, i + 1);
      } else if c == '/' && i + 1 < n && text[i + 1] == '/' {
        return;
      } else if Opener(c) {
        depth := depth + 1;
      } else if Closer(c) {
        depth := depth - 1;
      }
      i := i + 1;
    }
    DeltaEnd(text, i);
  }
}

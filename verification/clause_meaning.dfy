/** The delimiter depth of a line and the substitution of a trailing keyword, described
    without their scanners. */
module ClauseMeaning {
  import opened ClauseText
  import opened TrailingInvariant

  // ---------------------------------------------------------------------
  // Delimiter depth

  function Occurrences(s: string, chars: string): nat {
    if s == "" then 0 else (if s[0] in chars then 1 else 0) + Occurrences(s[1..], chars)
  }

  function Nesting(s: string): int {
    Occurrences(s, "([{") - Occurrences(s, ")]}")
  }

  // Text outside strings and comments.
  predicate Code(s: string) {
    '"' !in s && forall i :: 0 <= i < |s| - 1 ==> s[i] != '/' || s[i + 1] != '/'
  }

  // Text between the quotes of a string literal: plain characters and escaped pairs.
  predicate Quoted(s: string)
    decreases |s|
  {
    s == "" || (if s[0] == '\\' then |s| >= 2 && Quoted(s[2..]) else s[0] != '"' && Quoted(s[1..]))
  }

  // Code before a string literal, a comment or the end counts bracket by bracket.
  lemma {:induction false} CodePrefix(a: string, b: string)
    requires Code(a) && (a != "" && b != "" && a[|a| - 1] == '/' ==> b[0] != '/')
    ensures Delta(a + b) == Nesting(a) + Delta(b)
  {
    if a == "" {
      assert a + b == b;
    } else {
      assert (a + b)[1..] == a[1..] + b;
      forall i | 0 <= i < |a[1..]| - 1
        ensures a[1..][i] != '/' || a[1..][i + 1] != '/'
      {
        assert a[i + 1] != '/' || a[i + 2] != '/';
      }
      CodePrefix(a[1..], b);
      if a[0] == '/' && |a + b| > 1 { assert (a + b)[1] == if |a| > 1 then a[1] else b[0]; }
    }
  }

  lemma {:induction false} AfterQuoted(q: string, b: string)
    requires Quoted(q)
    ensures AfterString(q + "\"" + b) == b && (q + "\"" + b)[..|q|] == q
    decreases |q|
  {
    var s := q + "\"" + b;
    if q == "" {
      assert s == "\"" + b;
    } else if q[0] == '\\' {
      AfterQuoted(q[2..], b);
      assert s[2..] == q[2..] + "\"" + b;
    } else {
      AfterQuoted(q[1..], b);
      assert s[1..] == q[1..] + "\"" + b;
    }
  }

  lemma {:induction false} UnclosedQuoted(q: string)
    requires Quoted(q)
    ensures AfterString(q) == ""
    decreases |q|
  {
    if q != "" { UnclosedQuoted(if q[0] == '\\' then q[2..] else q[1..]); }
  }

  /** A line of code has its opening less its closing delimiters; a comment ends it, and a
      string literal counts for nothing, escapes included, closed or not. */
  lemma DepthMeans(code: string, text: string, rest: string)
    requires Code(code)
    ensures Delta(code) == Nesting(code)
    ensures (code != "" ==> code[|code| - 1] != '/') ==> Delta(code + "//" + rest) == Nesting(code)
    ensures Quoted(text) ==> Delta(code + "\"" + text + "\"" + rest) == Nesting(code) + Delta(rest)
    ensures Quoted(text) ==> Delta(code + "\"" + text) == Nesting(code)
  {
    CodePrefix(code, "");
    assert code + "" == code;
    if code != "" ==> code[|code| - 1] != '/' {
      CodePrefix(code, "//" + rest);
      assert code + "//" + rest == code + ("//" + rest);
    }
    if Quoted(text) {
      var closed, unclosed := "\"" + (text + "\"" + rest), "\"" + text;
      CodePrefix(code, closed);
      AfterQuoted(text, rest);
      assert closed[1..] == text + "\"" + rest && code + "\"" + text + "\"" + rest == code + closed;
      CodePrefix(code, unclosed);
      UnclosedQuoted(text);
      assert unclosed[1..] == text && code + "\"" + text == code + unclosed;
    }
  }

  // ---------------------------------------------------------------------
  // Trailing keywords

  // A brace, white space, the keyword and one more white space, after `before`.
  function Trailing(w: string, before: string, gap: string, c: char, rest: string): string {
    before + "}" + gap + w + [c] + rest
  }

  ghost predicate HasTrailing(w: string, s: string) {
    exists before, gap, c, rest :: AllSpace(gap) && IsSpace(c) && Trailing(w, before, gap, c, rest) == s
  }

  lemma FoundHere(w: string, gap: string, c: char, rest: string)
    requires Plainword(w) && AllSpace(gap) && IsSpace(c)
    ensures var s := Trailing(w, "", gap, c, rest);
      TrailingAt(w, s) && Spaces(s[1..]) == |gap|
  {
    hide IsSpace;
    var s := Trailing(w, "", gap, c, rest);
    var tail := w + [c] + rest;
    assert s[1..] == gap + tail;
    SpacesOfConcat(gap, tail);
    assert s[1 + |gap|..] == tail && tail[..|w|] == w;
  }

  lemma Shifted(w: string, before: string, gap: string, c: char, rest: string)
    ensures Trailing(w, before, gap, c, rest) == before + Trailing(w, "", gap, c, rest)
  {
    assert "" + "}" == "}";
    var tail := "}" + gap + w + [c] + rest;
    assert before + "}" + gap + w + [c] + rest == before + tail;
  }

  lemma Found(w: string, t: string) returns (gap: string, c: char, rest: string)
    requires TrailingAt(w, t)
    ensures AllSpace(gap) && IsSpace(c) && Trailing(w, "", gap, c, rest) == t
  {
    hide IsSpace, Spaces;
    var n := Spaces(t[1..]);
    var tail := t[1 + n..];
    gap, c, rest := t[1..][..n], tail[|w|], tail[|w| + 1..];
    assert tail == w + [c] + rest;
    assert t == "}" + gap + tail;
  }

  lemma FoundThere(w: string, s: string, i: nat)
    requires i < |s| && TrailingAt(w, s[i..])
    ensures HasTrailing(w, s)
  {
    hide AllSpace, TrailingAt, Trailing;
    var gap, c, rest := Found(w, s[i..]);
    Shifted(w, s[..i], gap, c, rest);
    assert s == s[..i] + s[i..];
    assert Trailing(w, s[..i], gap, c, rest) == s;
  }

  // A brace ends the white space, so an earlier match lies wholly before it.
  lemma EarlierIsInside(w: string, before: string, gap: string, c: char, rest: string, i: nat)
    requires Plainword(w) && i < |before| && TrailingAt(w, Trailing(w, before, gap, c, rest)[i..])
    ensures TrailingAt(w, before[i..])
  {
    hide IsSpace, Spaces, Plainword;
    var s, t := Trailing(w, before, gap, c, rest)[i..], before[i..];
    var behind, inside := s[1..], t[1..];
    var n := Spaces(behind);
    assert s[1 + n..] == behind[n..];
    NoBraceInPrefix(behind, n, w);
    assert behind[|inside|] == '}';
    assert n + |w| + 1 <= |inside|;
    assert behind[..n + |w| + 1] == inside[..n + |w| + 1];
    PrefixDecides(inside, behind, n, w);
    assert t[1 + n..] == inside[n..];
  }

  lemma {:induction false} SkipTo(w: string, w': string, before: string, t: string)
    requires forall i :: 0 <= i < |before| ==> !TrailingAt(w, (before + t)[i..])
    ensures Substitute(w, w', before + t) == before + Substitute(w, w', t)
  {
    hide TrailingAt;
    var s := before + t;
    if before == "" {
      assert s == t;
    } else {
      assert s[0..] == s && s[1..] == before[1..] + t;
      assert forall i :: 0 <= i < |before| - 1 ==> (before[1..] + t)[i..] == s[i + 1..];
      SkipTo(w, w', before[1..], t);
    }
  }

  lemma NotBefore(w: string, before: string)
    requires !HasTrailing(w, before)
    ensures forall i :: 0 <= i < |before| ==> !TrailingAt(w, before[i..])
  {
    hide TrailingAt, HasTrailing;
    forall i | 0 <= i < |before|
      ensures !TrailingAt(w, before[i..])
    {
      if TrailingAt(w, before[i..]) { FoundThere(w, before, i); }
    }
  }

  lemma NotEarlier(w: string, before: string, gap: string, c: char, rest: string)
    requires Plainword(w) && !HasTrailing(w, before)
    ensures forall i :: 0 <= i < |before| ==> !TrailingAt(w, Trailing(w, before, gap, c, rest)[i..])
  {
    hide TrailingAt, HasTrailing, Plainword;
    var s := Trailing(w, before, gap, c, rest);
    NotBefore(w, before);
    forall i | 0 <= i < |before|
      ensures !TrailingAt(w, s[i..])
    {
      if TrailingAt(w, s[i..]) { EarlierIsInside(w, before, gap, c, rest, i); }
    }
  }

  /** Exactly the keyword after a brace changes: the first match is respelled and the search
      goes on behind it; a text without a match is kept. */
  lemma SubstituteMeans(w: string, w': string, before: string, gap: string, c: char, rest: string)
    requires Plainword(w) && AllSpace(gap) && IsSpace(c) && !HasTrailing(w, before)
    ensures Substitute(w, w', before) == before
    ensures Substitute(w, w', Trailing(w, before, gap, c, rest)) == before + "}" + gap + w' + [c] + Substitute(w, w', rest)
  {
    hide IsSpace, Spaces, TrailingAt, HasTrailing, Trailing, Plainword, AllSpace;
    assert before + "" == before;
    NotBefore(w, before);
    SkipTo(w, w', before, "");
    NotEarlier(w, before, gap, c, rest);
    Shifted(w, before, gap, c, rest);
    SkipTo(w, w', before, Trailing(w, "", gap, c, rest));
    FoundHere(w, gap, c, rest);
    SubstituteHere(w, w', gap, c, rest);
    hide Substitute;
    var tail := Substitute(w, w', rest);
    assert before + ("}" + gap + w' + [c] + tail) == before + "}" + gap + w' + [c] + tail;
  }

  lemma SubstituteHere(w: string, w': string, gap: string, c: char, rest: string)
    requires var s := Trailing(w, "", gap, c, rest); TrailingAt(w, s) && Spaces(s[1..]) == |gap|
    ensures Substitute(w, w', Trailing(w, "", gap, c, rest)) == "}" + gap + w' + [c] + Substitute(w, w', rest)
  {
    hide IsSpace, Spaces, TrailingAt;
    var s := Trailing(w, "", gap, c, rest);
    var j := 1 + |gap|;
    assert s[..j] == "}" + gap && s[j + |w|] == c && s[j + |w| + 1..] == rest;
  }
}

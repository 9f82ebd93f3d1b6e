/** The invariant that trails a closing brace on its line, and the substitution
    of its keyword. */
module TrailingInvariant {
  import opened ClauseText

  // `\}\s*word\s` at the start of `s`.
  predicate TrailingAt(w: string, s: string) {
    s != "" && s[0] == '}' && StartsWithWord(s[1 + Spaces(s[1..])..], w)
  }

  // Replace `w` by `w'` at every match, left to right.
  function Substitute(w: string, w': string, s: string): string
    decreases |s|
  {
    if s == "" then ""
    else if TrailingAt(w, s) then
      var j := 1 + Spaces(s[1..]);
      s[..j] + w' + [s[j + |w|]] + Substitute(w, w', s[j + |w| + 1..])
    else [s[0]] + Substitute(w, w', s[1..])
  }

  lemma TrailingLength(w: string, s: string)
    requires TrailingAt(w, s)
    ensures 1 + Spaces(s[1..]) + |w| < |s|
  {
  }

  ghost predicate NoTrailing(w: string, s: string) {
    forall i :: 0 <= i < |s| ==> !TrailingAt(w, s[i..])
  }

  // A keyword as the substitution uses it.
  predicate Plainword(w: string) {
    w != "" && forall i :: 0 <= i < |w| ==> !IsSpace(w[i]) && w[i] != '}'
  }

  lemma BraceNotSpace()
    ensures !IsSpace('}')
  {
  }

  // A prefix of the result without a brace is a prefix of the source.
  lemma {:induction false} PrefixKept(w: string, w': string, s: string, n: nat)
    requires n <= |Substitute(w, w', s)|
    requires forall i :: 0 <= i < n ==> Substitute(w, w', s)[i] != '}'
    ensures n <= |s| && s[..n] == Substitute(w, w', s)[..n]
    decreases n
  {
    if n > 0 {
      var t := Substitute(w, w', s);
      assert t[0] == s[0];
      assert t[1..] == Substitute(w, w', s[1..]);
      forall i | 0 <= i < n - 1
        ensures t[1..][i] != '}'
      {
        assert t[1..][i] == t[i + 1];
      }
      PrefixKept(w, w', s[1..], n - 1);
      assert s[..n] == [s[0]] + s[1..][..n - 1];
      assert t[..n] == [t[0]] + t[1..][..n - 1];
    }
  }

  // Spaces then a word then a space, all read off a prefix.
  lemma PrefixDecides(s: string, t: string, j: nat, u: string)
    requires Plainword(u) && j == Spaces(t) && StartsWithWord(t[j..], u)
    requires j + |u| + 1 <= |s| && s[..j + |u| + 1] == t[..j + |u| + 1]
    ensures Spaces(s) == j && StartsWithWord(s[j..], u)
  {
    hide IsSpace;
    var n := j + |u| + 1;
    forall i | 0 <= i < n
      ensures s[i] == t[i]
    {
      assert s[..n][i] == t[..n][i];
    }
    assert t[j..][..|u|] == u;
    assert t[j] == u[0];
    SpacesAre(s, j);
    assert s[j..][..|u|] == t[j..][..|u|];
  }

  lemma NoBraceInPrefix(t: string, j: nat, u: string)
    requires Plainword(u) && j == Spaces(t) && StartsWithWord(t[j..], u)
    ensures forall i :: 0 <= i < j + |u| + 1 ==> i < |t| && t[i] != '}'
  {
    BraceNotSpace();
    hide IsSpace, Spaces;
    forall i | 0 <= i < j + |u| + 1
      ensures i < |t| && t[i] != '}'
    {
      if j <= i < j + |u| {
        assert t[j..][..|u|][i - j] == u[i - j];
      } else if i == j + |u| {
        assert t[j..][|u|] == t[i];
      }
    }
  }

  // A word the result has after leading space was there in the source.
  lemma WordReflected(w: string, w': string, u: string, s: string)
    requires Plainword(u)
    requires var t := Substitute(w, w', s); StartsWithWord(t[Spaces(t)..], u)
    ensures StartsWithWord(s[Spaces(s)..], u)
  {
    hide IsSpace, Spaces, Substitute;
    var t := Substitute(w, w', s);
    var j := Spaces(t);
    NoBraceInPrefix(t, j, u);
    PrefixKept(w, w', s, j + |u| + 1);
    PrefixDecides(s, t, j, u);
  }

  // The substitution makes no clause line out of a line that is not one.
  lemma SubstituteKeepsNoClause(w: string, w': string, v: Surface, s: string)
    requires Match(v, s).None?
    ensures Match(v, Substitute(w, w', s)).None?
  {
    hide IsSpace, Spaces;
    forall k
      ensures MatchKind(v, k, Substitute(w, w', s)).None?
    {
      WordIsPlain(v, k);
      hide Word;
      if MatchKind(v, k, Substitute(w, w', s)).Some? {
        WordReflected(w, w', Word(v, k), s);
        MatchIsKind(v, k, s);
      }
    }
  }

  lemma WordIsPlain(v: Surface, k: Kind)
    ensures Plainword(Word(v, k))
  {
  }

  lemma TrailingReflected(w: string, w': string, u: string, s: string)
    requires Plainword(u) && s != "" && !TrailingAt(w, s) && TrailingAt(u, Substitute(w, w', s))
    ensures TrailingAt(u, s)
  {
    hide IsSpace, Spaces;
    assert Substitute(w, w', s)[1..] == Substitute(w, w', s[1..]);
    WordReflected(w, w', u, s[1..]);
  }

  lemma SuffixNoTrailing(w: string, s: string, n: nat)
    requires NoTrailing(w, s) && n <= |s|
    ensures NoTrailing(w, s[n..])
  {
    forall i | 0 <= i < |s[n..]|
      ensures !TrailingAt(w, s[n..][i..])
    {
      assert s[n..][i..] == s[n + i..];
    }
  }

  // The text of a match after its keyword is replaced.
  lemma ReplacedShape(w: string, w': string, s: string, j: nat, rest: string)
    requires Plainword(w') && TrailingAt(w, s) && j == 1 + Spaces(s[1..])
    ensures j + |w| < |s| && s == s[..j] + w + [s[j + |w|]] + s[j + |w| + 1..]
    ensures var t := s[..j] + w' + [s[j + |w|]] + rest;
      && TrailingAt(w', t) && 1 + Spaces(t[1..]) == j
      && t[..j] == s[..j] && t[j + |w'|] == s[j + |w|] && t[j + |w'| + 1..] == rest
  {
    hide IsSpace;
    assert s[j..][..|w|] == w && s[j..][|w|] == s[j + |w|];
    var t := s[..j] + w' + [s[j + |w|]] + rest;
    assert t[1..] == s[1..j] + (w' + [s[j + |w|]] + rest);
    forall i | 0 <= i < |s[1..j]|
      ensures IsSpace(s[1..j][i])
    {
      assert s[1..j][i] == s[1..][i];
    }
    SpacesOfConcat(s[1..j], w' + [s[j + |w|]] + rest);
    assert t[j..][..|w'|] == w' && t[j..][|w'|] == s[j + |w|];
    assert IsSpace(s[j..][|w|]);
  }

  lemma NotTrailingHere(w: string, s: string)
    requires NoTrailing(w, s)
    ensures !TrailingAt(w, s)
  {
    assert s[0..] == s;
  }

  lemma {:induction false} SubstituteBack(w: string, w': string, s: string)
    requires Plainword(w) && Plainword(w') && NoTrailing(w', s)
    ensures Substitute(w', w, Substitute(w, w', s)) == s
    decreases |s|
  {
    hide IsSpace, Spaces, StartsWithWord, NoTrailing;
    if s == "" {
    } else if TrailingAt(w, s) {
      var j := 1 + Spaces(s[1..]);
      TrailingLength(w, s);
      var rest := s[j + |w| + 1..];
      SuffixNoTrailing(w', s, j + |w| + 1);
      SubstituteBack(w, w', rest);
      ReplacedShape(w, w', s, j, Substitute(w, w', rest));
    } else {
      var t := Substitute(w, w', s);
      assert t[0] == s[0] && t[1..] == Substitute(w, w', s[1..]);
      SuffixNoTrailing(w', s, 1);
      SubstituteBack(w, w', s[1..]);
      NotTrailingHere(w', s);
      if TrailingAt(w', t) { TrailingReflected(w, w', w', s); }
      assert s == [s[0]] + s[1..];
    }
  }

  // The result never holds the replaced word.
  lemma {:induction false} SubstituteLeavesNone(w: string, w': string, s: string)
    requires Plainword(w) && Plainword(w') && !StartsLike(w, w')
    ensures NoTrailing(w, Substitute(w, w', s))
    decreases |s|
  {
    hide IsSpace, Spaces, StartsWithWord;
    var t := Substitute(w, w', s);
    if s == "" {
    } else if TrailingAt(w, s) {
      var j := 1 + Spaces(s[1..]);
      TrailingLength(w, s);
      var rest := Substitute(w, w', s[j + |w| + 1..]);
      SubstituteLeavesNone(w, w', s[j + |w| + 1..]);
      ReplacedLeavesNone(w, w', s, j, rest);
    } else {
      SubstituteLeavesNone(w, w', s[1..]);
      assert t[1..] == Substitute(w, w', s[1..]);
      if TrailingAt(w, t) { TrailingReflected(w, w', w, s); }
      ConsNoTrailing(w, t);
    }
  }

  lemma ConsNoTrailing(w: string, t: string)
    requires t != "" && !TrailingAt(w, t) && NoTrailing(w, t[1..])
    ensures NoTrailing(w, t)
  {
    forall i | 0 <= i < |t|
      ensures !TrailingAt(w, t[i..])
    {
      if i == 0 { assert t[0..] == t; } else { assert t[i..] == t[1..][i - 1..]; }
    }
  }

  // Either word begins with the other's first letters.
  predicate StartsLike(w: string, w': string) {
    w != "" && w' != "" && w[0] == w'[0]
  }

  lemma OtherFirstLetter(t: string, w: string)
    requires t != "" && w != "" && t[0] != w[0]
    ensures !StartsWithWord(t, w)
  {
    assert |t| > |w| ==> t[..|w|][0] == t[0];
  }

  lemma ReplacedLeavesNone(w: string, w': string, s: string, j: nat, rest: string)
    requires Plainword(w) && Plainword(w') && !StartsLike(w, w')
    requires TrailingAt(w, s) && j == 1 + Spaces(s[1..]) && j + |w| < |s| && NoTrailing(w, rest)
    ensures NoTrailing(w, s[..j] + w' + [s[j + |w|]] + rest)
  {
    hide IsSpace, Spaces;
    BraceNotSpace();
    ReplacedShape(w, w', s, j, rest);
    var t := s[..j] + w' + [s[j + |w|]] + rest;
    forall i | 0 <= i < |t|
      ensures !TrailingAt(w, t[i..])
    {
      if i == 0 {
        assert t[0..] == t && t[j..][0] == w'[0];
        OtherFirstLetter(t[j..], w);
      } else if i < j {
        assert t[i..][0] == s[i] == s[1..][i - 1];
      } else if i < j + |w'| {
        assert t[i..][0] == w'[i - j];
      } else if i == j + |w'| {
        assert t[i..][0] == s[j + |w|] == s[j..][|w|];
      } else {
        assert t[i..] == rest[i - (j + |w'| + 1)..];
      }
    }
  }

  // The two substitutions undo each other on a line exactly when the line does
  // not already hold the target keyword in trailing position.
  lemma SubstituteBackExactly(w: string, w': string, s: string)
    requires Plainword(w) && Plainword(w') && !StartsLike(w', w)
    ensures Substitute(w', w, Substitute(w, w', s)) == s <==> NoTrailing(w', s)
  {
    hide Substitute, TrailingAt;
    SubstituteLeavesNone(w', w, Substitute(w, w', s));
    if NoTrailing(w', s) { SubstituteBack(w, w', s); }
  }
}

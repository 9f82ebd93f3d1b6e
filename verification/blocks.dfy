/** Maps from block base to page count, as the frame allocator's `free` map:
    coverage, the maximal normal form, and the coalescing pass. */
module Blocks {
  import opened Machine
  import opened Ordered

  function End(base: int, pages: int): int {
    base + pages * PAGE_SIZE
  }

  predicate In(base: int, pages: int, a: int) {
    base <= a < End(base, pages)
  }

  // What `validate_run` accepts: nonempty, page aligned, and no wrap at 2^64.
  predicate Good(base: int, pages: int) {
    0 <= base && 0 < pages && base % PAGE_SIZE == 0 && End(base, pages) < U64_LIMIT
  }

  predicate AllGood(free: map<int, int>) {
    forall b :: b in free ==> Good(b, free[b])
  }

  ghost predicate Covers(free: map<int, int>, a: int) {
    exists b :: b in free && In(b, free[b], a)
  }

  // No two blocks overlap.
  predicate Separate(free: map<int, int>) {
    && AllGood(free)
    && forall b, c :: b in free && c in free && b < c ==> End(b, free[b]) <= c
  }

  // No two blocks overlap or touch.
  predicate Normal(free: map<int, int>) {
    && AllGood(free)
    && forall b, c :: b in free && c in free && b < c ==> End(b, free[b]) < c
  }

  ghost predicate SameCover(f: map<int, int>, g: map<int, int>) {
    forall a :: Covers(f, a) <==> Covers(g, a)
  }

  // A contiguous covered interval lies inside a single block of a normal form.
  lemma IntervalInOneBlock(free: map<int, int>, lo: int, hi: int) returns (b: int)
    requires Normal(free) && lo < hi
    requires forall a :: lo <= a < hi ==> Covers(free, a)
    ensures b in free && b <= lo && hi <= End(b, free[b])
  {
    assert Covers(free, lo);
    b :| b in free && In(b, free[b], lo);
    var e := End(b, free[b]);
    if e < hi {
      assert Covers(free, e);
      var d :| d in free && In(d, free[d], e);
    }
  }

  lemma BaseAgrees(f: map<int, int>, g: map<int, int>, b: int)
    requires Normal(f) && Normal(g) && SameCover(f, g) && b in f
    ensures b in g
  {
    assert In(b, f[b], b) && Covers(f, b);
    var c :| c in g && In(c, g[c], b);
    assert c < b ==> In(c, g[c], b - 1) && Covers(g, b - 1);
  }

  lemma EndAgrees(f: map<int, int>, g: map<int, int>, b: int)
    requires Normal(f) && Normal(g) && SameCover(f, g) && b in f && b in g
    ensures g[b] <= f[b]
  {
    var e := End(b, f[b]);
    if f[b] < g[b] {
      assert In(b, g[b], e) && Covers(g, e);
      assert Covers(f, e);
      var d :| d in f && In(d, f[d], e);
    }
  }

  // A set of addresses has at most one normal form.
  lemma NormalFormUnique(f: map<int, int>, g: map<int, int>)
    requires Normal(f) && Normal(g) && SameCover(f, g)
    ensures f == g
  {
    forall b
      ensures b in f <==> b in g
      ensures b in f && b in g ==> f[b] == g[b]
    {
      if b in f { BaseAgrees(f, g, b); }
      if b in g { BaseAgrees(g, f, b); }
      if b in f && b in g {
        EndAgrees(f, g, b);
        EndAgrees(g, f, b);
      }
    }
  }

  // One iteration of the coalescing loop: extend the last block or start a new one.
  function Append(out: map<int, int>, base: int, pages: int): map<int, int> {
    if LastTouches(out, base)
    then var last := Greatest(out.Keys); out[last := out[last] + pages]
    else out[base := pages]
  }

  predicate LastTouches(out: map<int, int>, base: int) {
    out != map[] && var last := Greatest(out.Keys); End(last, out[last]) == base
  }

  predicate AllIn(src: map<int, int>, keys: seq<int>) {
    forall i :: 0 <= i < |keys| ==> keys[i] in src
  }

  function CoalesceKeys(src: map<int, int>, keys: seq<int>): map<int, int>
    requires AllIn(src, keys)
  {
    if keys == [] then map[]
    else
      var n := |keys| - 1;
      Append(CoalesceKeys(src, keys[..n]), keys[n], src[keys[n]])
  }

  lemma CoalesceKeysNext(src: map<int, int>, keys: seq<int>, i: nat)
    requires AllIn(src, keys) && i < |keys|
    ensures CoalesceKeys(src, keys[..i + 1]) == Append(CoalesceKeys(src, keys[..i]), keys[i], src[keys[i]])
  {
    assert keys[..i + 1][..i] == keys[..i];
  }

  function Coalesce(src: map<int, int>): map<int, int> {
    CoalesceKeys(src, Sorted(src.Keys))
  }

  ghost predicate KeysCover(src: map<int, int>, keys: seq<int>, a: int)
    requires AllIn(src, keys)
  {
    exists i :: 0 <= i < |keys| && In(keys[i], src[keys[i]], a)
  }

  lemma {:induction false} CoalesceKeysGood(src: map<int, int>, keys: seq<int>)
    requires AllGood(src) && AllIn(src, keys)
    ensures AllGood(CoalesceKeys(src, keys))
  {
    if keys != [] {
      var n := |keys| - 1;
      CoalesceKeysGood(src, keys[..n]);
    }
  }

  // What the coalescing loop has built after the keys `keys`.
  ghost predicate Coalesced(out: map<int, int>, src: map<int, int>, keys: seq<int>)
    requires AllIn(src, keys)
  {
    && Normal(out)
    && (forall a :: Covers(out, a) <==> KeysCover(src, keys, a))
    && (keys == [] ==> out == map[])
    && (keys != [] ==> var k := keys[|keys| - 1]; forall b :: b in out ==> End(b, out[b]) <= End(k, src[k]))
    && Total(out) == SumOver(src, keys)
  }

  lemma {:induction false} CoalesceKeysNormal(src: map<int, int>, keys: seq<int>)
    requires Separate(src) && Increasing(keys) && AllIn(src, keys)
    ensures Coalesced(CoalesceKeys(src, keys), src, keys)
  {
    if keys == [] {
      assert forall a :: !Covers(map[], a) && !KeysCover(src, [], a);
    } else {
      var n := |keys| - 1;
      var init := keys[..n];
      assert keys == init + [keys[n]];
      CoalesceKeysNormal(src, init);
      AppendKeepsCoalesced(CoalesceKeys(src, init), src, init, keys[n]);
    }
  }

  lemma AppendStep(out: map<int, int>, key: int, pages: int)
    requires Normal(out) && Good(key, pages)
    requires forall b :: b in out ==> End(b, out[b]) <= key
    ensures Normal(Append(out, key, pages))
    ensures forall a :: Covers(Append(out, key, pages), a) <==> Covers(out, a) || In(key, pages, a)
    ensures forall b :: b in Append(out, key, pages) ==> End(b, Append(out, key, pages)[b]) <= End(key, pages)
  {
    hide Covers, Normal, AllGood;
    if LastTouches(out, key) {
      AppendMerges(out, Greatest(out.Keys), key, pages);
    } else {
      BelowKey(out, key);
      AppendAdds(out, key, pages);
    }
  }

  lemma BelowKey(out: map<int, int>, key: int)
    requires Normal(out) && !LastTouches(out, key)
    requires forall b :: b in out ==> End(b, out[b]) <= key
    ensures forall b :: b in out ==> End(b, out[b]) < key
  {
    forall b | b in out
      ensures End(b, out[b]) < key
    {
      var last := Greatest(out.Keys);
      assert b <= last;
    }
  }

  lemma AppendTotal(out: map<int, int>, key: int, pages: int)
    requires key !in out
    ensures Total(Append(out, key, pages)) == Total(out) + pages
  {
    if LastTouches(out, key) {
      MergeTotal(out, Greatest(out.Keys), pages);
    } else {
      TotalInsert(out, key, pages);
    }
  }

  lemma AppendKeepsCoalesced(out: map<int, int>, src: map<int, int>, init: seq<int>, key: int)
    requires Separate(src) && key in src && Increasing(init + [key]) && AllIn(src, init)
    requires Coalesced(out, src, init)
    ensures AllIn(src, init + [key])
    ensures Coalesced(Append(out, key, src[key]), src, init + [key])
  {
    var keys := init + [key];
    if init != [] {
      assert init[|init| - 1] == keys[|init| - 1] < keys[|init|] == key;
    }
    AppendStep(out, key, src[key]);
    AppendTotal(out, key, src[key]);
    KeysCoverExtend(src, init, key);
    assert keys[..|keys| - 1] == init;
  }

  lemma KeysCoverExtend(src: map<int, int>, init: seq<int>, key: int)
    requires key in src && AllIn(src, init)
    ensures AllIn(src, init + [key])
    ensures forall a :: KeysCover(src, init + [key], a) <==> KeysCover(src, init, a) || In(key, src[key], a)
  {
    forall a
      ensures KeysCover(src, init + [key], a) <==> KeysCover(src, init, a) || In(key, src[key], a)
    {
      var keys := init + [key];
      if KeysCover(src, init, a) {
        var i :| 0 <= i < |init| && In(init[i], src[init[i]], a);
        assert In(keys[i], src[keys[i]], a);
      }
      if In(key, src[key], a) { assert In(keys[|init|], src[keys[|init|]], a); }
    }
  }

  ghost function SumOver(src: map<int, int>, keys: seq<int>): int
    requires AllIn(src, keys)
    decreases |keys|
  {
    if keys == [] then 0
    else
      var n := |keys| - 1;
      src[keys[n]] + SumOver(src, keys[..n])
  }

  lemma AppendMerges(out: map<int, int>, last: int, key: int, pages: int)
    requires Normal(out) && IsGreatest(out.Keys, last) && End(last, out[last]) == key && Good(key, pages)
    ensures Normal(out[last := out[last] + pages])
    ensures forall a :: Covers(out[last := out[last] + pages], a) <==> Covers(out, a) || In(key, pages, a)
  {
    var next := out[last := out[last] + pages];
    forall a
      ensures Covers(next, a) <==> Covers(out, a) || In(key, pages, a)
    {
      if Covers(next, a) {
        var b :| b in next && In(b, next[b], a);
        if !In(key, pages, a) { assert b in out && In(b, out[b], a); }
      }
      if Covers(out, a) {
        var b :| b in out && In(b, out[b], a);
        assert In(b, next[b], a);
      }
      if In(key, pages, a) { assert In(last, next[last], a); }
    }
  }

  lemma AppendAdds(out: map<int, int>, key: int, pages: int)
    requires Normal(out) && Good(key, pages)
    requires forall b :: b in out ==> End(b, out[b]) < key
    ensures Normal(out[key := pages]) && key !in out
    ensures forall a :: Covers(out[key := pages], a) <==> Covers(out, a) || In(key, pages, a)
  {
    CoversInsert(out, key, pages);
  }

  lemma MergeTotal(out: map<int, int>, last: int, pages: int)
    requires last in out
    ensures Total(out[last := out[last] + pages]) == Total(out) + pages
  {
    TotalRemove(out, last);
    TotalRemove(out[last := out[last] + pages], last);
    assert out[last := out[last] + pages] - {last} == out - {last};
  }

  lemma CoversInsert(free: map<int, int>, base: int, pages: int)
    requires base !in free
    ensures forall a :: Covers(free[base := pages], a) <==> Covers(free, a) || In(base, pages, a)
  {
    var next := free[base := pages];
    forall a
      ensures Covers(next, a) <==> Covers(free, a) || In(base, pages, a)
    {
      if Covers(next, a) {
        var b :| b in next && In(b, next[b], a);
        if b != base { assert b in free && In(b, free[b], a); }
      }
      if Covers(free, a) {
        var b :| b in free && In(b, free[b], a);
        assert b in next && In(b, next[b], a);
      }
      if In(base, pages, a) { assert base in next && In(base, next[base], a); }
    }
  }

  lemma CoversRemove(free: map<int, int>, base: int)
    requires Separate(free) && base in free
    ensures forall a :: Covers(free - {base}, a) <==> Covers(free, a) && !In(base, free[base], a)
  {
    var next := free - {base};
    forall a
      ensures Covers(next, a) <==> Covers(free, a) && !In(base, free[base], a)
    {
      if Covers(next, a) {
        var b :| b in next && In(b, next[b], a);
        assert b in free && b != base && (b < base || base < b);
      }
      if Covers(free, a) && !In(base, free[base], a) {
        var b :| b in free && In(b, free[b], a);
        assert b in next && In(b, next[b], a);
      }
    }
  }

  lemma SortedInit(src: map<int, int>, keys: seq<int>)
    requires keys != [] && Increasing(keys) && AllIn(src, keys) && forall k :: k in keys <==> k in src
    ensures var n := |keys| - 1;
      && Increasing(keys[..n]) && AllIn(src - {keys[n]}, keys[..n])
      && forall k :: k in keys[..n] <==> k in src - {keys[n]}
  {
    var n := |keys| - 1;
    assert keys[n] in keys && keys == keys[..n] + [keys[n]];
    forall k
      ensures k in keys[..n] <==> k in src - {keys[n]}
    {
      assert k in src <==> k in keys;
    }
  }

  lemma {:induction false} SumSorted(src: map<int, int>, keys: seq<int>)
    requires Increasing(keys) && AllIn(src, keys) && forall k :: k in keys <==> k in src
    ensures SumOver(src, keys) == Total(src)
    decreases |keys|
  {
    if keys == [] {
      forall k
        ensures k !in src
      {
        assert k !in keys;
      }
      assert src == map[];
    } else {
      var n := |keys| - 1;
      var init, key := keys[..n], keys[n];
      var rest := src - {key};
      SortedInit(src, keys);
      hide Total;
      SumOverFrame(src, rest, init);
      SumSorted(rest, init);
      TotalRemove(src, key);
    }
  }

  lemma {:induction false} SumOverFrame(f: map<int, int>, g: map<int, int>, keys: seq<int>)
    requires AllIn(f, keys) && AllIn(g, keys)
    requires forall i :: 0 <= i < |keys| ==> f[keys[i]] == g[keys[i]]
    ensures SumOver(f, keys) == SumOver(g, keys)
  {
    if keys != [] {
      SumOverFrame(f, g, keys[..|keys| - 1]);
    }
  }

  // Coalescing computes the normal form of the addresses its input covers, and
  // keeps the number of pages.
  lemma CoalesceIsNormalForm(src: map<int, int>)
    requires Separate(src)
    ensures Normal(Coalesce(src))
    ensures SameCover(Coalesce(src), src)
    ensures Total(Coalesce(src)) == Total(src)
    ensures forall g :: Normal(g) && SameCover(g, src) ==> g == Coalesce(src)
  {
    var keys := Sorted(src.Keys);
    CoalesceKeysNormal(src, keys);
    SumSorted(src, keys);
    forall a
      ensures Covers(Coalesce(src), a) <==> Covers(src, a)
    {
      if Covers(src, a) {
        var b :| b in src && In(b, src[b], a);
        assert b in keys;
      }
    }
    forall g | Normal(g) && SameCover(g, src)
      ensures g == Coalesce(src)
    {
      NormalFormUnique(g, Coalesce(src));
    }
  }

  // The pages of separate blocks below an address number at most that address / 4096.
  lemma {:induction false} TotalBounded(free: map<int, int>, lo: int, hi: int)
    requires Separate(free) && 0 <= lo <= hi
    requires forall b :: b in free ==> lo <= b && End(b, free[b]) <= hi
    ensures 0 <= Total(free) && Total(free) * PAGE_SIZE <= hi - lo
    decreases |free.Keys|
  {
    if free != map[] {
      var k := Least(free.Keys);
      var rest := free - {k};
      assert rest.Keys == free.Keys - {k};
      TotalBounded(rest, End(k, free[k]), hi);
    }
  }
}

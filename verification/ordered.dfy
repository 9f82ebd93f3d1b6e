/** Iteration order of ordered maps and sets (`BTreeMap`, `BTreeSet`) keyed by integers. */
module Ordered {

  ghost predicate IsLeast(s: set<int>, m: int) {
    m in s && forall x :: x in s ==> m <= x
  }

  ghost predicate IsGreatest(s: set<int>, m: int) {
    m in s && forall x :: x in s ==> x <= m
  }

  lemma {:induction false} LeastExists(s: set<int>)
    requires s != {}
    ensures exists m :: IsLeast(s, m)
    decreases |s|
  {
    assert (forall x :: x !in s) ==> s == {};
    var x :| x in s;
    var rest := s - {x};
    if rest == {} {
      assert s == {x};
      assert IsLeast(s, x);
    } else {
      LeastExists(rest);
      var y :| IsLeast(rest, y);
      assert forall z :: z in s ==> z == x || z in rest;
      assert IsLeast(s, if x < y then x else y);
    }
  }

  lemma {:induction false} GreatestExists(s: set<int>)
    requires s != {}
    ensures exists m :: IsGreatest(s, m)
    decreases |s|
  {
    assert (forall x :: x !in s) ==> s == {};
    var x :| x in s;
    var rest := s - {x};
    if rest == {} {
      assert s == {x};
      assert IsGreatest(s, x);
    } else {
      GreatestExists(rest);
      var y :| IsGreatest(rest, y);
      assert forall z :: z in s ==> z == x || z in rest;
      assert IsGreatest(s, if x > y then x else y);
    }
  }

  function Least(s: set<int>): (m: int)
    requires s != {}
    ensures IsLeast(s, m)
  {
    LeastExists(s);
    assert exists m :: IsLeast(s, m);
    var m :| m in s && forall x :: x in s ==> m <= x;
    m
  }

  function Greatest(s: set<int>): (m: int)
    requires s != {}
    ensures IsGreatest(s, m)
  {
    GreatestExists(s);
    assert exists m :: IsGreatest(s, m);
    var m :| m in s && forall x :: x in s ==> x <= m;
    m
  }

  predicate Increasing(r: seq<int>) {
    forall i, j :: 0 <= i < j < |r| ==> r[i] < r[j]
  }

  // The members of a set in ascending order.
  function Sorted(s: set<int>): (r: seq<int>)
    ensures Increasing(r)
    ensures forall x :: x in r <==> x in s
    decreases |s|
  {
    if s == {} then [] else
      var m := Least(s);
      var rest := Sorted(s - {m});
      assert forall i :: 0 <= i < |rest| ==> rest[i] in s - {m};
      [m] + rest
  }

  // Total of the values of a map.
  ghost function Total(m: map<int, int>): int
    decreases |m.Keys|
  {
    if m == map[] then 0 else
      var k := Least(m.Keys);
      assert (m - {k}).Keys == m.Keys - {k};
      m[k] + Total(m - {k})
  }

  lemma {:induction false} TotalRemove(m: map<int, int>, k: int)
    requires k in m
    ensures Total(m) == m[k] + Total(m - {k})
    decreases |m.Keys|
  {
    var l := Least(m.Keys);
    if l != k {
      assert (m - {l}).Keys == m.Keys - {l};
      TotalRemove(m - {l}, k);
      assert m - {l} - {k} == m - {k} - {l};
      TotalRemoveLeast(m - {k}, l);
    }
  }

  lemma TotalRemoveLeast(m: map<int, int>, l: int)
    requires IsLeast(m.Keys, l)
    ensures Total(m) == m[l] + Total(m - {l})
  {
    assert Least(m.Keys) == l;
  }

  lemma TotalInsert(m: map<int, int>, k: int, v: int)
    requires k !in m
    ensures Total(m[k := v]) == Total(m) + v
  {
    TotalRemove(m[k := v], k);
    assert m[k := v] - {k} == m;
  }
}

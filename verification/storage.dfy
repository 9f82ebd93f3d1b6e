/** Fixed-capacity containers over arrays, each refining its abstract collection. */
module Storage {
  import opened Wrappers
  import opened Machine
  import opened Bits

  datatype StorageError = OutOfBounds | Full | Empty | DuplicateKey | MissingKey

  // ---------------------------------------------------------------------
  // A bounded queue

  datatype QueueOp<T> = Put(item: T) | Take

  // A run of the queue: its contents, the items accepted, and the items taken, in order.
  ghost function QueueRun<T>(capacity: nat, ops: seq<QueueOp<T>>): (seq<T>, seq<T>, seq<T>) {
    if ops == [] then ([], [], [])
    else
      var (q, accepted, taken) := QueueRun(capacity, ops[..|ops| - 1]);
      match ops[|ops| - 1]
      case Put(x) => if |q| == capacity then (q, accepted, taken) else (q + [x], accepted + [x], taken)
      case Take => if q == [] then (q, accepted, taken) else (q[1..], accepted, taken + [q[0]])
  }

  /** Over every run, what came out followed by what is inside is exactly what went in, and
      the queue never holds more than its capacity. */
  lemma {:induction false} FirstInFirstOut<T>(capacity: nat, ops: seq<QueueOp<T>>)
    ensures var (q, accepted, taken) := QueueRun(capacity, ops);
      taken + q == accepted && |q| <= capacity
  {
    if ops != [] {
      FirstInFirstOut(capacity, ops[..|ops| - 1]);
      var (q, accepted, taken) := QueueRun(capacity, ops[..|ops| - 1]);
      match ops[|ops| - 1] {
        case Put(x) => assert taken + (q + [x]) == (taken + q) + [x];
        case Take => if q != [] { assert (taken + [q[0]]) + q[1..] == taken + q; }
      }
    }
  }

  // Position i of a ring that starts at `head`.
  function Slot(head: nat, i: nat, n: nat): nat
    requires head < n && i <= n
  {
    if head + i < n then head + i else head + i - n
  }

  lemma SlotIsModulo(head: nat, i: nat, n: nat)
    requires head < n && i <= n
    ensures (head + i) % n == Slot(head, i, n)
  {
    if head + i < n {
      DivModUnique(head + i, n, 0, head + i);
    } else if head + i < 2 * n {
      DivModUnique(head + i, n, 1, head + i - n);
    }
  }

  class RingBuffer<T(0)> {
    const values: array<T>
    var head: nat
    var len: nat

    ghost predicate Valid()
      reads this
    {
      len <= values.Length && (values.Length > 0 ==> head < values.Length)
    }

    // The queue, front first.
    ghost function Contents(): (q: seq<T>)
      requires Valid()
      reads this, values
      ensures |q| == len
    {
      seq(len, i requires 0 <= i < len && len <= values.Length && head < values.Length reads this, values
        => values[Slot(head, i, values.Length)])
    }

    constructor (capacity: nat)
      ensures Valid() && values.Length == capacity && Contents() == [] && fresh(values)
    {
      values := new T[capacity];
      head, len := 0, 0;
    }

    method Push(x: T) returns (r: Result<(), StorageError>)
      requires Valid()
      modifies this`len, values
      ensures Valid()
      ensures r == if |old(Contents())| == values.Length then Err(Full) else Ok(())
      ensures Contents() == if r.Ok? then old(Contents()) + [x] else old(Contents())
    {
      if len == values.Length || values.Length == 0 { return Err(Full); }
      var tail := (head + len) % values.Length;
      SlotIsModulo(head, len, values.Length);
      values[tail] := x;
      len := len + 1;
      r := Ok(());
    }

    method Pop() returns (r: Result<T, StorageError>)
      requires Valid()
      modifies this`head, this`len
      ensures Valid()
      ensures old(Contents()) == [] ==> r == Err(Empty) && Contents() == []
      ensures old(Contents()) != [] ==> r == Ok(old(Contents())[0]) && Contents() == old(Contents())[1..]
    {
      if len == 0 || values.Length == 0 { return Err(Empty); }
      r := Ok(values[head]);
      SlotIsModulo(head, 1, values.Length);
      head := (head + 1) % values.Length;
      len := len - 1;
      assert Contents() == old(Contents())[1..];
    }

    /** A whole run on the ring: its contents, what it accepted and what it gave back are
        those of the bounded queue, so it is first in, first out. */
    method Apply(ops: seq<QueueOp<T>>) returns (accepted: seq<T>, taken: seq<T>)
      requires Valid() && Contents() == []
      modifies this`head, this`len, values
      ensures Valid()
      ensures (Contents(), accepted, taken) == QueueRun(values.Length, ops)
      ensures taken + Contents() == accepted && |Contents()| <= values.Length
    {
      accepted, taken := [], [];
      for k := 0 to |ops|
        invariant Valid()
        invariant (Contents(), accepted, taken) == QueueRun(values.Length, ops[..k])
      {
        QueueNext(values.Length, ops, k);
        match ops[k] {
          case Put(x) =>
            var r := Push(x);
            if r.Ok? { accepted := accepted + [x]; }
          case Take =>
            var r := Pop();
            if r.Ok? { taken := taken + [r.value]; }
        }
      }
      assert ops[..|ops|] == ops;
      FirstInFirstOut(values.Length, ops);
    }
  }

  lemma QueueNext<T>(capacity: nat, ops: seq<QueueOp<T>>, k: nat)
    requires k < |ops|
    ensures var (q, accepted, taken) := QueueRun(capacity, ops[..k]);
      QueueRun(capacity, ops[..k + 1]) ==
        match ops[k]
        case Put(x) => if |q| == capacity then (q, accepted, taken) else (q + [x], accepted + [x], taken)
        case Take => if q == [] then (q, accepted, taken) else (q[1..], accepted, taken + [q[0]])
  {
    assert ops[..k + 1][..k] == ops[..k];
  }

  // ---------------------------------------------------------------------
  // A bounded map

  // The first n entries are used, the others empty, and keys are distinct.
  ghost predicate Packed<K, V>(es: seq<Option<(K, V)>>, n: nat) {
    && n <= |es|
    && (forall i :: 0 <= i < |es| ==> (es[i].Some? <==> i < n))
    && forall i, j :: 0 <= i < j < n ==> es[i].value.0 != es[j].value.0
  }

  ghost function ModelOf<K, V>(es: seq<Option<(K, V)>>, n: nat): map<K, V>
    requires Packed(es, n)
  {
    map i | 0 <= i < n :: es[i].value.0 := es[i].value.1
  }

  lemma ModelIs<K, V>(es: seq<Option<(K, V)>>, n: nat)
    requires Packed(es, n)
    ensures var m := ModelOf(es, n);
      && (forall i :: 0 <= i < n ==> es[i].value.0 in m && m[es[i].value.0] == es[i].value.1)
      && forall k :: k in m ==> exists i :: 0 <= i < n && es[i].value.0 == k
  {
  }

  lemma InsertModel<K, V>(es: seq<Option<(K, V)>>, n: nat, key: K, value: V)
    requires Packed(es, n) && n < |es| && key !in ModelOf(es, n)
    ensures Packed(es[n := Some((key, value))], n + 1)
    ensures ModelOf(es[n := Some((key, value))], n + 1) == ModelOf(es, n)[key := value]
  {
    hide ModelOf;
    ModelIs(es, n);
    var es' := es[n := Some((key, value))];
    assert forall i :: 0 <= i < n ==> es'[i] == es[i];
    assert Packed(es', n + 1);
    ModelIs(es', n + 1);
    var m, m' := ModelOf(es, n), ModelOf(es', n + 1);
    forall k
      ensures k in m' <==> k == key || k in m
      ensures k in m' ==> m'[k] == if k == key then value else m[k]
    {
      if k in m' {
        var i :| 0 <= i < n + 1 && es'[i].value.0 == k;
      }
      if k == key { assert es'[n].value.0 == k; }
    }
  }

  // Swap-remove: the last entry takes the removed one's place.
  ghost function SwapRemove<K, V>(es: seq<Option<(K, V)>>, n: nat, index: nat): (r: seq<Option<(K, V)>>)
    requires index < n <= |es|
    ensures |r| == |es| && forall i :: 0 <= i < |es| ==>
      r[i] == if i == n - 1 then None else if i == index then es[n - 1] else es[i]
  {
    es[index := es[n - 1]][n - 1 := None]
  }

  lemma RemovePacked<K, V>(es: seq<Option<(K, V)>>, n: nat, index: nat)
    requires Packed(es, n) && index < n
    ensures Packed(SwapRemove(es, n, index), n - 1)
  {
    hide SwapRemove;
  }

  // What remains was there, under another key than the removed one.
  lemma Remaining<K, V>(es: seq<Option<(K, V)>>, n: nat, index: nat, i: nat)
    requires Packed(es, n) && index < n && i < n - 1
    requires Packed(SwapRemove(es, n, index), n - 1)
    ensures var k, m := SwapRemove(es, n, index)[i].value.0, ModelOf(es, n);
      k != es[index].value.0 && k in m && m[k] == SwapRemove(es, n, index)[i].value.1
  {
    hide ModelOf, SwapRemove;
    ModelIs(es, n);
    var j := if i == index then n - 1 else i;
    assert SwapRemove(es, n, index)[i] == es[j] && j != index;
  }

  // Every other entry remains.
  lemma Remains<K, V>(es: seq<Option<(K, V)>>, n: nat, index: nat, i: nat)
    requires Packed(es, n) && index < n && i < n && i != index
    requires Packed(SwapRemove(es, n, index), n - 1)
    ensures es[i].value.0 in ModelOf(SwapRemove(es, n, index), n - 1)
  {
    hide ModelOf, SwapRemove;
    ModelIs(SwapRemove(es, n, index), n - 1);
    var j := if i == n - 1 then index else i;
    assert SwapRemove(es, n, index)[j] == es[i];
  }

  lemma RemovedKeys<K, V>(es: seq<Option<(K, V)>>, n: nat, index: nat, k: K)
    requires Packed(es, n) && index < n
    requires Packed(SwapRemove(es, n, index), n - 1)
    ensures var m, m' := ModelOf(es, n), ModelOf(SwapRemove(es, n, index), n - 1);
      && (k in m' <==> k != es[index].value.0 && k in m)
      && (k in m' ==> m'[k] == m[k])
  {
    hide ModelOf, SwapRemove;
    var es' := SwapRemove(es, n, index);
    if k in ModelOf(es', n - 1) {
      ModelIs(es', n - 1);
      var i :| 0 <= i < n - 1 && es'[i].value.0 == k;
      Remaining(es, n, index, i);
    } else if k in ModelOf(es, n) && k != es[index].value.0 {
      ModelIs(es, n);
      var i :| 0 <= i < n && es[i].value.0 == k;
      Remains(es, n, index, i);
    }
  }

  lemma SameWithout<K, V>(m: map<K, V>, m': map<K, V>, key: K)
    requires forall k :: k in m' <==> k != key && k in m
    requires forall k :: k in m' ==> m'[k] == m[k]
    ensures m' == m - {key}
  {
  }

  lemma RemoveModel<K, V>(es: seq<Option<(K, V)>>, n: nat, index: nat)
    requires Packed(es, n) && index < n
    ensures Packed(SwapRemove(es, n, index), n - 1)
    ensures ModelOf(SwapRemove(es, n, index), n - 1) == ModelOf(es, n) - {es[index].value.0}
  {
    RemovePacked(es, n, index);
    var m, m', key := ModelOf(es, n), ModelOf(SwapRemove(es, n, index), n - 1), es[index].value.0;
    hide ModelOf, SwapRemove, Packed;
    forall k
      ensures k in m' <==> k != key && k in m
      ensures k in m' ==> m'[k] == m[k]
    {
      RemovedKeys(es, n, index, k);
    }
    SameWithout(m, m', key);
  }

  class FixedMap<K(==), V> {
    const entries: array<Option<(K, V)>>
    var len: nat

    ghost predicate Valid()
      reads this, entries
    {
      Packed(entries[..], len)
    }

    ghost function Model(): map<K, V>
      requires Valid()
      reads this, entries
    {
      ModelOf(entries[..], len)
    }

    constructor (capacity: nat)
      ensures Valid() && entries.Length == capacity && Model() == map[] && fresh(entries)
    {
      entries := new Option<(K, V)>[capacity](i => None);
      len := 0;
    }

    // The position of a key among the packed entries.
    method Find(key: K) returns (at: Option<nat>)
      requires Valid()
      ensures at.Some? ==> at.value < len && entries[at.value].value.0 == key
      ensures at.None? <==> key !in Model()
    {
      ghost var es := entries[..];
      ModelIs(es, len);
      hide ModelOf;
      for i := 0 to len
        invariant forall j :: 0 <= j < i ==> es[j].value.0 != key
      {
        assert es[i] == entries[i];
        if entries[i].value.0 == key {
          return Some(i);
        }
      }
      at := None;
    }

    method Insert(key: K, value: V) returns (r: Result<(), StorageError>)
      requires Valid()
      modifies this, entries
      ensures Valid()
      ensures r == if key in old(Model()) then Err(DuplicateKey) else if old(len) == entries.Length then Err(Full) else Ok(())
      ensures len == if r.Ok? then old(len) + 1 else old(len)
      ensures Model() == if r.Ok? then old(Model())[key := value] else old(Model())
    {
      var at := Find(key);
      if at.Some? { return Err(DuplicateKey); }
      if len == entries.Length { return Err(Full); }
      ghost var es := entries[..];
      InsertModel(es, len, key, value);
      hide ModelOf, Packed;
      entries[len] := Some((key, value));
      len := len + 1;
      assert entries[..] == es[len - 1 := Some((key, value))];
      r := Ok(());
    }

    method Get(key: K) returns (r: Result<V, StorageError>)
      requires Valid()
      ensures if key in Model() then r == Ok(Model()[key]) else r == Err(MissingKey)
    {
      var at := Find(key);
      if at.None? { return Err(MissingKey); }
      assert entries[..][at.value] == entries[at.value];
      ModelIs(entries[..], len);
      r := Ok(entries[at.value].value.1);
    }

    method Remove(key: K) returns (r: Result<V, StorageError>)
      requires Valid()
      modifies this, entries
      ensures Valid()
      ensures key in old(Model()) ==> r == Ok(old(Model())[key]) && Model() == old(Model()) - {key} && len == old(len) - 1
      ensures key !in old(Model()) ==> r == Err(MissingKey) && Model() == old(Model())
    {
      hide ModelOf;
      var at := Find(key);
      if at.None? { return Err(MissingKey); }
      var index, last := at.value, len - 1;
      ghost var es := entries[..];
      assert es[index] == entries[index] && es[index].Some?;
      ModelIs(es, len);
      assert ModelOf(es, len)[key] == es[index].value.1;
      RemoveModel(es, len, index);
      r := Ok(entries[index].value.1);
      hide Packed;
      entries[index] := entries[last];
      entries[last] := None;
      len := last;
      assert entries[..] == SwapRemove(es, last + 1, index);
    }
  }

  // ---------------------------------------------------------------------
  // A set of bits

  // The number of low bits set.
  function TrailingOnes(x: nat): (n: nat)
    ensures !Bit(x, n) && forall i :: 0 <= i < n ==> Bit(x, i)
  {
    if x % 2 == 0 then 0
    else
      var n := 1 + TrailingOnes(x / 2);
      assert forall i :: 0 < i < n ==> Bit(x, i) == Bit(x / 2, i - 1);
      n
  }

  lemma MaxBits(i: nat)
    ensures Bit(U64_MAX, i) <==> i < 64
  {
    Pow2_64();
    LowOnes(64, i);
  }

  ghost predicate AllSet(x: nat) {
    forall i: nat :: i < 64 ==> Bit(x, i)
  }

  lemma FullWord(x: nat)
    requires x < U64_LIMIT
    ensures x == U64_MAX <==> AllSet(x)
    ensures x != U64_MAX ==> TrailingOnes(x) < 64
  {
    Pow2_64();
    hide Pow2, TrailingOnes;
    forall i: nat
      ensures x == U64_MAX && i < 64 ==> Bit(x, i)
      ensures AllSet(x) ==> Bit(x, i) == Bit(U64_MAX, i)
    {
      MaxBits(i);
      if i >= 64 { HighBitClear(x, 64, i); }
    }
    if AllSet(x) { SameBits(x, U64_MAX); }
    if TrailingOnes(x) >= 64 { assert AllSet(x); }
  }

  class Bitmap {
    const words: array<nat>

    ghost predicate Valid()
      reads words
    {
      forall i :: 0 <= i < words.Length ==> words[i] < U64_LIMIT
    }

    predicate Has(b: nat)
      reads words
    {
      b / 64 < words.Length && Bit(words[b / 64], b % 64)
    }

    constructor (count: nat)
      ensures Valid() && words.Length == count && (forall b: nat :: !Has(b)) && fresh(words)
    {
      words := new nat[count](i => 0);
      new;
      forall b: nat
        ensures !Has(b)
      {
        ZeroBit(b % 64);
      }
    }

    method Set(bit: nat, value: bool) returns (r: Result<(), StorageError>)
      requires Valid()
      modifies words
      ensures Valid()
      ensures r == if bit < 64 * words.Length then Ok(()) else Err(OutOfBounds)
      ensures forall b: nat :: Has(b) <==> if b == bit && r.Ok? then value else old(Has(b))
    {
      var word := bit / 64;
      assert bit == 64 * word + bit % 64;
      if word >= words.Length { return Err(OutOfBounds); }
      var mask := Shl(1, bit % 64);
      ghost var was := words[word];
      var updated := if value then Or(words[word], mask) else Clear(words[word], mask);
      MaskedWord(was, bit % 64, value, updated);
      words[word] := updated;
      forall b: nat
        ensures Has(b) <==> if b == bit then value else old(Has(b))
      {
        assert b == 64 * (b / 64) + b % 64;
        if b / 64 == word {
          assert b % 64 == bit % 64 <==> b == bit;
          assert Bit(updated, b % 64) <==> if b % 64 == bit % 64 then value else Bit(was, b % 64);
        }
      }
      r := Ok(());
    }

    method Get(bit: nat) returns (r: Result<bool, StorageError>)
      ensures bit < 64 * words.Length ==> r.Ok? && (r.value <==> Has(bit))
      ensures bit >= 64 * words.Length ==> r == Err(OutOfBounds)
    {
      var word := bit / 64;
      assert bit == 64 * word + bit % 64;
      if word >= words.Length { return Err(OutOfBounds); }
      TestedBit(words[word], bit % 64);
      var present := And(words[word], Shl(1, bit % 64)) != 0;
      assert present == Has(bit);
      r := Ok(present);
    }

    /** The least bit that is not in the set, if any is not. */
    method FirstClear() returns (r: Option<nat>)
      requires Valid()
      ensures r.Some? ==> r.value < 64 * words.Length && !Has(r.value) && forall b: nat :: b < r.value ==> Has(b)
      ensures r.None? ==> forall b: nat :: b < 64 * words.Length ==> Has(b)
    {
      for index := 0 to words.Length
        invariant forall b: nat :: b < 64 * index ==> Has(b)
      {
        FullWord(words[index]);
        if words[index] != U64_MAX {
          var low := TrailingOnes(words[index]);
          WordPart(index, low);
          forall b: nat | b < index * 64 + low
            ensures Has(b)
          {
            if b >= 64 * index { WordPart(index, b - 64 * index); }
          }
          return Some(index * 64 + low);
        }
        forall b: nat | b < 64 * (index + 1)
          ensures Has(b)
        {
          if b >= 64 * index {
            WordPart(index, b - 64 * index);
            assert AllSet(words[index]) ==> Bit(words[index], b - 64 * index);
          }
        }
      }
      r := None;
    }
  }

  lemma WordPart(index: nat, low: nat)
    requires low < 64
    ensures (index * 64 + low) / 64 == index && (index * 64 + low) % 64 == low
  {
  }

  lemma OnlyBit(k: nat, i: nat)
    ensures Bit(Shl(1, k), i) <==> i == k
  {
    ShlBit(1, k, i);
    if i > k { HighBitClear(1, 1, i - k); }
  }

  lemma MaskedWord(x: nat, k: nat, value: bool, y: nat)
    requires x < U64_LIMIT && k < 64 && y == if value then Or(x, Shl(1, k)) else Clear(x, Shl(1, k))
    ensures y < U64_LIMIT && forall i: nat :: Bit(y, i) <==> if i == k then value else Bit(x, i)
  {
    Pow2_64();
    forall i: nat
      ensures Bit(y, i) <==> if i == k then value else Bit(x, i)
    {
      OnlyBit(k, i);
      OrBit(x, Shl(1, k), i);
      ClearBit(x, Shl(1, k), i);
    }
    forall i: nat | i >= 64
      ensures !Bit(y, i)
    {
      HighBitClear(x, 64, i);
    }
    BoundedByBits(y, 64);
  }

  lemma TestedBit(x: nat, k: nat)
    ensures And(x, Shl(1, k)) != 0 <==> Bit(x, k)
  {
    OnlyBit(k, k);
    AndBit(x, Shl(1, k), k);
    if And(x, Shl(1, k)) != 0 {
      var i := NonzeroHasBit(And(x, Shl(1, k)));
      AndBit(x, Shl(1, k), i);
      OnlyBit(k, i);
    } else {
      ZeroBit(k);
    }
  }
}

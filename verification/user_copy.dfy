/** Copies between kernel buffers and user memory through an address space. */
module UserCopies {
  import opened Wrappers
  import opened Machine
  import opened Bits
  import opened AddressSpaces

  const READ := 1
  const WRITE := 2
  const USER := 8

  type Memory = map<int, int>

  // The physical address of byte i of a user range, if it may be accessed.
  ghost function Byte(s: Space, start: int, i: int, right: nat): Result<int, MapError> {
    if start + i >= U64_LIMIT then Err(RangeOverflow)
    else match Translate(s, start + i)
      case Err(e) => Err(e)
      case Ok(pp) => if Contains(pp.1, Or(USER, right)) then Ok(pp.0) else Err(UserFault)
  }

  // The physical addresses of a user range, or the error of its first bad byte.
  ghost function Addresses(s: Space, start: int, len: nat, right: nat): Result<seq<int>, MapError>
    decreases len
  {
    if len == 0 then Ok([])
    else match Addresses(s, start, len - 1, right)
      case Err(e) => Err(e)
      case Ok(ps) =>
        match Byte(s, start, len - 1, right)
        case Err(e) => Err(e)
        case Ok(p) => Ok(ps + [p])
  }

  ghost predicate Accessible(s: Space, start: int, len: nat, right: nat) {
    forall i :: 0 <= i < len ==> Byte(s, start, i, right).Ok?
  }

  lemma {:induction false} AddressesAre(s: Space, start: int, len: nat, right: nat)
    ensures var r := Addresses(s, start, len, right);
      && (r.Ok? <==> Accessible(s, start, len, right))
      && (r.Ok? ==> |r.value| == len)
      && (r.Ok? ==> forall i :: 0 <= i < len ==> Byte(s, start, i, right) == Ok(r.value[i]))
    decreases len
  {
    hide Byte;
    if len > 0 {
      AddressesAre(s, start, len - 1, right);
      assert Accessible(s, start, len, right) ==> Byte(s, start, len - 1, right).Ok?;
    }
  }

  // ---------------------------------------------------------------------
  // What a page must allow

  // The mapping holds the address, its permissions have bit 3 (user) and the bit asked for
  // (0 to read, 1 to write), and the byte lies at p.
  predicate Serves(m: Mapping, a: int, bit: nat, p: int) {
    && m.virtualBase <= a < m.virtualBase + Size(m)
    && Bit(m.permissions, 3) && Bit(m.permissions, bit)
    && p == m.physicalBase + (a - m.virtualBase)
  }

  // User code may access byte a, and it lies at p.
  ghost predicate UserByte(s: Space, a: int, bit: nat, p: int) {
    && !s.destroyed
    && (0 <= a < 0x8000_0000_0000 || 0xffff_8000_0000_0000 <= a < 0x1_0000_0000_0000_0000)
    && exists b :: b in s.mappings && Serves(s.mappings[b], a, bit, p)
  }

  predicate RightBit(right: nat, bit: nat) {
    (right == 1 && bit == 0) || (right == 2 && bit == 1)
  }

  lemma UserRight(x: nat, right: nat, bit: nat)
    requires RightBit(right, bit)
    ensures Contains(x, Or(USER, right)) <==> Bit(x, 3) && Bit(x, bit)
  {
    hide Contains, Or, Bit;
    assert Pow2(3) == 8 && Pow2(0) == 1 && Pow2(1) == 2;
    ContainsTwo(x, 3, bit);
  }

  lemma MeaningIs(s: Space, a: int, p: int, permissions: nat)
    requires Inv(s)
    ensures Meaning(s.mappings, a) == Some((p, permissions)) <==>
      exists b :: b in s.mappings && Covers(s.mappings[b], a)
             && p == s.mappings[b].physicalBase + (a - s.mappings[b].virtualBase) && permissions == s.mappings[b].permissions
  {
    if b :| b in s.mappings && Covers(s.mappings[b], a) {
      MeaningAt(s, b, a);
      assert s.mappings[b].virtualBase == b;
    }
  }

  // Byte i of a range, from the mappings.
  lemma ByteExactly(s: Space, start: int, i: int, right: nat, bit: nat, p: int)
    requires Inv(s) && RightBit(right, bit)
    ensures Byte(s, start, i, right) == Ok(p) <==> UserByte(s, start + i, bit, p)
  {
    var a := start + i;
    CanonicalExactly(a);
    hide Canonical, Contains, Or, Meaning, Bit, Inv;
    forall b | b in s.mappings
      ensures Contains(s.mappings[b].permissions, Or(USER, right))
        <==> Bit(s.mappings[b].permissions, 3) && Bit(s.mappings[b].permissions, bit)
    {
      UserRight(s.mappings[b].permissions, right, bit);
    }
    if UserByte(s, a, bit, p) {
      var b :| b in s.mappings && Serves(s.mappings[b], a, bit, p);
      MeaningIs(s, a, p, s.mappings[b].permissions);
    }
    if Byte(s, start, i, right) == Ok(p) {
      var pp := Meaning(s.mappings, a).value;
      MeaningIs(s, a, pp.0, pp.1);
    }
  }

  ghost predicate UserMay(s: Space, a: int, bit: nat) {
    exists p :: UserByte(s, a, bit, p)
  }

  // User code may access the whole range.
  ghost predicate UserRange(s: Space, start: int, len: nat, bit: nat) {
    forall a :: start <= a < start + len ==> UserMay(s, a, bit)
  }

  lemma ByteMay(s: Space, start: int, i: int, right: nat, bit: nat)
    requires Inv(s) && RightBit(right, bit)
    ensures Byte(s, start, i, right).Ok? <==> UserMay(s, start + i, bit)
  {
    hide Byte, Inv, UserByte;
    var a := start + i;
    if p :| UserByte(s, a, bit, p) { ByteExactly(s, start, i, right, bit, p); }
    if Byte(s, start, i, right).Ok? { ByteExactly(s, start, i, right, bit, Byte(s, start, i, right).value); }
  }

  /** A range validates exactly when each of its bytes has a canonical 64-bit address in a
      live space, in a mapping with the user bit and the bit asked for; its addresses are
      those of the bytes. */
  lemma RangeExactly(s: Space, start: int, len: nat, right: nat, bit: nat)
    requires Inv(s) && RightBit(right, bit)
    ensures var r := Addresses(s, start, len, right);
      && (r.Ok? <==> UserRange(s, start, len, bit))
      && (r.Ok? ==> |r.value| == len && forall i :: 0 <= i < len ==> UserByte(s, start + i, bit, r.value[i]))
  {
    AddressesAre(s, start, len, right);
    hide Byte, Addresses, Inv, UserByte, UserMay;
    var r := Addresses(s, start, len, right);
    forall i | 0 <= i < len
      ensures Byte(s, start, i, right).Ok? <==> UserMay(s, start + i, bit)
      ensures r.Ok? ==> UserByte(s, start + i, bit, r.value[i])
    {
      ByteMay(s, start, i, right, bit);
      if r.Ok? { ByteExactly(s, start, i, right, bit, r.value[i]); }
    }
    if UserRange(s, start, len, bit) {
      forall i | 0 <= i < len
        ensures Byte(s, start, i, right).Ok?
      {
        assert UserMay(s, start + i, bit);
      }
    }
    if r.Ok? {
      forall a | start <= a < start + len
        ensures UserMay(s, a, bit)
      {
        assert Byte(s, start, a - start, right).Ok?;
      }
    }
  }

  // Insert the bytes one after the other.
  function Write(mem: Memory, ps: seq<int>, vs: seq<int>): Memory
    requires |ps| == |vs|
  {
    if ps == [] then mem
    else Write(mem, ps[..|ps| - 1], vs[..|vs| - 1])[ps[|ps| - 1] := vs[|vs| - 1]]
  }

  function Read(mem: Memory, ps: seq<int>): Result<seq<int>, MapError> {
    if ps == [] then Ok([])
    else
      var r := Read(mem, ps[..|ps| - 1]);
      if r.Err? then r
      else if ps[|ps| - 1] !in mem then Err(UserFault)
      else Ok(r.value + [mem[ps[|ps| - 1]]])
  }

  ghost function CopyTo(s: Space, mem: Memory, a: int, input: seq<int>): (Memory, Result<(), MapError>) {
    var r := Addresses(s, a, |input|, WRITE);
    AddressesAre(s, a, |input|, WRITE);
    if r.Err? then (mem, Err(r.error)) else (Write(mem, r.value, input), Ok(()))
  }

  ghost function CopyFrom(s: Space, mem: Memory, a: int, len: nat): Result<seq<int>, MapError> {
    var r := Addresses(s, a, len, READ);
    if r.Err? then Err(r.error) else Read(mem, r.value)
  }

  // ---------------------------------------------------------------------
  // What a write leaves behind

  predicate SameAt(m: Memory, mem: Memory, x: int) {
    (x in m <==> x in mem) && (x in m && x in mem ==> m[x] == mem[x])
  }

  // The last position that writes an address decides.
  lemma {:induction false} WriteAt(mem: Memory, ps: seq<int>, vs: seq<int>, x: int)
    requires |ps| == |vs|
    ensures var m := Write(mem, ps, vs);
      (x !in ps ==> SameAt(m, mem, x)) && (x in ps ==> x in m)
  {
    if ps != [] {
      var n := |ps| - 1;
      WriteAt(mem, ps[..n], vs[..n], x);
      assert ps == ps[..n] + [ps[n]];
    }
  }

  lemma {:induction false} WriteLast(mem: Memory, ps: seq<int>, vs: seq<int>, i: nat)
    requires |ps| == |vs| && i < |ps| && forall j :: i < j < |ps| ==> ps[j] != ps[i]
    ensures ps[i] in Write(mem, ps, vs) && Write(mem, ps, vs)[ps[i]] == vs[i]
  {
    var n := |ps| - 1;
    if i < n {
      WriteLast(mem, ps[..n], vs[..n], i);
      assert ps[n] != ps[i];
    }
  }

  lemma {:induction false} ReadIs(mem: Memory, ps: seq<int>)
    ensures var r := Read(mem, ps);
      && (r.Ok? <==> forall i :: 0 <= i < |ps| ==> ps[i] in mem)
      && (r.Ok? ==> |r.value| == |ps| && forall i :: 0 <= i < |ps| ==> ps[i] in mem && r.value[i] == mem[ps[i]])
      && (r.Err? ==> r.error == UserFault)
  {
    if ps != [] {
      var n := |ps| - 1;
      ReadIs(mem, ps[..n]);
      assert forall i :: 0 <= i < n ==> ps[..n][i] == ps[i];
    }
  }

  // Positions that share a physical byte are given the same value.
  ghost predicate Consistent(ps: seq<int>, vs: seq<int>)
    requires |ps| == |vs|
  {
    forall i, j :: 0 <= i < j < |ps| && ps[i] == ps[j] ==> vs[i] == vs[j]
  }

  lemma {:induction false} LastOf(ps: seq<int>, i: nat, k: nat) returns (l: nat)
    requires i <= k < |ps| && ps[k] == ps[i]
    ensures i <= l < |ps| && ps[l] == ps[i] && forall j :: l < j < |ps| ==> ps[j] != ps[i]
    decreases |ps| - k
  {
    if j :| k < j < |ps| && ps[j] == ps[i] {
      l := LastOf(ps, i, j);
    } else {
      l := k;
    }
  }

  // Reading back what was written gives the input exactly when the input is consistent.
  lemma ReadBack(mem: Memory, ps: seq<int>, vs: seq<int>)
    requires |ps| == |vs|
    ensures Read(Write(mem, ps, vs), ps).Ok?
    ensures Read(Write(mem, ps, vs), ps) == Ok(vs) <==> Consistent(ps, vs)
  {
    var m := Write(mem, ps, vs);
    ReadIs(m, ps);
    hide Write, Read;
    forall i | 0 <= i < |ps|
      ensures ps[i] in m
    {
      WriteAt(mem, ps, vs, ps[i]);
    }
    if Consistent(ps, vs) {
      forall i | 0 <= i < |ps|
        ensures m[ps[i]] == vs[i]
      {
        var l := LastOf(ps, i, i);
        WriteLast(mem, ps, vs, l);
      }
      assert Read(m, ps).value == vs;
    }
    if Read(m, ps) == Ok(vs) {
      assert Read(m, ps).value == vs;
      forall i, j | 0 <= i < j < |ps| && ps[i] == ps[j]
        ensures vs[i] == vs[j]
      {
        assert vs[i] == m[ps[i]] && vs[j] == m[ps[j]];
      }
    }
  }

  // ---------------------------------------------------------------------
  // Whole copies

  /** A failed copy changes nothing; a successful one changes only the bytes the range
      translates to. */
  lemma AllOrNothing(s: Space, mem: Memory, a: int, input: seq<int>)
    ensures var (m, r) := CopyTo(s, mem, a, input);
      && (r.Ok? <==> Accessible(s, a, |input|, WRITE))
      && (r.Err? ==> m == mem)
      && forall x :: !Target(s, a, |input|, x) ==> SameAt(m, mem, x)
  {
    var (m, r) := CopyTo(s, mem, a, input);
    AddressesAre(s, a, |input|, WRITE);
    hide Byte, Write;
    if r.Ok? {
      var ps := Addresses(s, a, |input|, WRITE).value;
      forall x | !Target(s, a, |input|, x)
        ensures SameAt(m, mem, x)
      {
        assert forall i :: 0 <= i < |ps| ==> Byte(s, a, i, WRITE) == Ok(ps[i]);
        WriteAt(mem, ps, input, x);
      }
    }
  }

  // Some byte of the range is stored at x.
  ghost predicate Target(s: Space, a: int, len: nat, x: int) {
    exists i :: 0 <= i < len && Byte(s, a, i, WRITE) == Ok(x)
  }

  lemma SameBytes(s: Space, a: int, len: nat)
    requires Addresses(s, a, len, WRITE).Ok? && Addresses(s, a, len, READ).Ok?
    ensures Addresses(s, a, len, WRITE) == Addresses(s, a, len, READ)
  {
    AddressesAre(s, a, len, WRITE);
    AddressesAre(s, a, len, READ);
    var w, r := Addresses(s, a, len, WRITE).value, Addresses(s, a, len, READ).value;
    forall i | 0 <= i < len
      ensures w[i] == r[i]
    {
      assert Byte(s, a, i, WRITE) == Ok(w[i]) && Byte(s, a, i, READ) == Ok(r[i]);
    }
    assert w == r;
  }

  /** On a range that may be written and read, copying out after copying in returns the
      same bytes if and only if bytes that share a physical address were equal. */
  lemma CopyBackExactly(s: Space, mem: Memory, a: int, input: seq<int>)
    requires Addresses(s, a, |input|, WRITE).Ok? && Addresses(s, a, |input|, READ).Ok?
    ensures |Addresses(s, a, |input|, WRITE).value| == |input|
    ensures CopyFrom(s, CopyTo(s, mem, a, input).0, a, |input|) == Ok(input)
      <==> Consistent(Addresses(s, a, |input|, WRITE).value, input)
  {
    AddressesAre(s, a, |input|, WRITE);
    SameBytes(s, a, |input|);
    ReadBack(mem, Addresses(s, a, |input|, WRITE).value, input);
  }

  /** A range inside one mapping has no shared bytes, so the copy always comes back. */
  lemma OneMappingCopiesBack(s: Space, mem: Memory, a: int, input: seq<int>, b: int)
    requires Inv(s) && b in s.mappings
    requires input != [] ==> Covers(s.mappings[b], a) && Covers(s.mappings[b], a + |input| - 1)
    requires Addresses(s, a, |input|, WRITE).Ok? && Addresses(s, a, |input|, READ).Ok?
    ensures CopyFrom(s, CopyTo(s, mem, a, input).0, a, |input|) == Ok(input)
  {
    AddressesAre(s, a, |input|, WRITE);
    var ps := Addresses(s, a, |input|, WRITE).value;
    forall i | 0 <= i < |input|
      ensures ps[i] == s.mappings[b].physicalBase + (a + i - b)
    {
      assert Byte(s, a, i, WRITE) == Ok(ps[i]);
      MeaningAt(s, b, a + i);
    }
    CopyBackExactly(s, mem, a, input);
  }

  // ---------------------------------------------------------------------
  // Whole copies, from the mappings

  // The byte user code reads at a is v.
  ghost predicate Shows(s: Space, mem: Memory, a: int, v: int) {
    exists p :: UserByte(s, a, 0, p) && p in mem && mem[p] == v
  }

  ghost predicate Readable(s: Space, mem: Memory, a: int) {
    exists p :: UserByte(s, a, 0, p) && p in mem
  }

  lemma OneByte(s: Space, a: int, bit: nat, p: int, q: int)
    requires Inv(s) && UserByte(s, a, bit, p) && UserByte(s, a, bit, q)
    ensures p == q
  {
    var b :| b in s.mappings && Serves(s.mappings[b], a, bit, p);
    var c :| c in s.mappings && Serves(s.mappings[c], a, bit, q);
    assert Covers(s.mappings[b], a) && Covers(s.mappings[c], a);
  }

  /** A copy from the user succeeds exactly when every byte may be read and is present, and
      returns those bytes. */
  lemma CopyFromExactly(s: Space, mem: Memory, a: int, len: nat)
    requires Inv(s)
    ensures var r := CopyFrom(s, mem, a, len);
      && (r.Ok? <==> forall x :: a <= x < a + len ==> Readable(s, mem, x))
      && (r.Ok? ==> |r.value| == len && forall i :: 0 <= i < len ==> Shows(s, mem, a + i, r.value[i]))
  {
    RangeExactly(s, a, len, READ, 0);
    hide Inv, UserByte, Addresses, Read;
    var r, ps := CopyFrom(s, mem, a, len), Addresses(s, a, len, READ);
    if ps.Ok? {
      ReadIs(mem, ps.value);
      forall i | 0 <= i < len
        ensures Readable(s, mem, a + i) <==> ps.value[i] in mem
      {
        var x := a + i;
        if p :| UserByte(s, x, 0, p) && p in mem { OneByte(s, x, 0, p, ps.value[i]); }
      }
      EachByte(s, mem, a, len, ps.value);
    } else if forall x :: a <= x < a + len ==> Readable(s, mem, x) {
      assert forall x :: a <= x < a + len ==> Readable(s, mem, x) ==> UserMay(s, x, 0);
    }
  }

  lemma EachByte(s: Space, mem: Memory, a: int, len: nat, ps: seq<int>)
    requires |ps| == len && forall i :: 0 <= i < len ==> (Readable(s, mem, a + i) <==> ps[i] in mem)
    ensures (forall i :: 0 <= i < len ==> ps[i] in mem) <==> (forall x :: a <= x < a + len ==> Readable(s, mem, x))
  {
    hide Readable;
    if forall i :: 0 <= i < len ==> ps[i] in mem {
      forall x | a <= x < a + len
        ensures Readable(s, mem, x)
      {
        assert ps[x - a] in mem;
      }
    }
    if forall x :: a <= x < a + len ==> Readable(s, mem, x) {
      forall i | 0 <= i < len
        ensures ps[i] in mem
      {
        assert Readable(s, mem, a + i);
      }
    }
  }

  // No byte of the range from `from` on lies at p.
  ghost predicate NotStored(s: Space, from: int, end: int, p: int) {
    forall x :: from <= x < end ==> !UserByte(s, x, 1, p)
  }

  /** A copy to the user succeeds exactly when every byte may be written. Then each physical
      byte holds the last input byte stored there and every other is as it was. */
  lemma CopyToExactly(s: Space, mem: Memory, a: int, input: seq<int>)
    requires Inv(s)
    ensures var (m, r) := CopyTo(s, mem, a, input); var end := a + |input|;
      && (r.Ok? <==> UserRange(s, a, |input|, 1))
      && (r.Err? ==> m == mem)
      && (forall p :: NotStored(s, a, end, p) ==> SameAt(m, mem, p))
      && (r.Ok? ==> forall x, p :: a <= x < end && UserByte(s, x, 1, p) && NotStored(s, x + 1, end, p) ==>
            p in m && m[p] == input[x - a])
  {
    RangeExactly(s, a, |input|, WRITE, 1);
    hide Inv, UserByte, Addresses, Write, UserRange, NotStored, SameAt;
    var r := Addresses(s, a, |input|, WRITE);
    if r.Ok? { StoredExactly(s, mem, a, input, r.value); } else { SameMemory(mem); }
  }

  lemma SameMemory(mem: Memory)
    ensures forall p :: SameAt(mem, mem, p)
  {
  }

  lemma StoredExactly(s: Space, mem: Memory, a: int, input: seq<int>, ps: seq<int>)
    requires Inv(s) && |ps| == |input| && forall i :: 0 <= i < |ps| ==> UserByte(s, a + i, 1, ps[i])
    ensures var m, end := Write(mem, ps, input), a + |input|;
      && (forall p :: NotStored(s, a, end, p) ==> SameAt(m, mem, p))
      && (forall x, p :: a <= x < end && UserByte(s, x, 1, p) && NotStored(s, x + 1, end, p) ==>
            p in m && m[p] == input[x - a])
  {
    hide Inv, UserByte, Write, NotStored, SameAt;
    var m, end := Write(mem, ps, input), a + |input|;
    forall p | NotStored(s, a, end, p)
      ensures SameAt(m, mem, p)
    {
      StoredNowhere(s, a, ps, p);
      WriteAt(mem, ps, input, p);
    }
    forall x, p | a <= x < end && UserByte(s, x, 1, p) && NotStored(s, x + 1, end, p)
      ensures p in m && m[p] == input[x - a]
    {
      StoredLast(s, a, ps, x, p);
      WriteLast(mem, ps, input, x - a);
    }
  }

  lemma StoredNowhere(s: Space, a: int, ps: seq<int>, p: int)
    requires forall i :: 0 <= i < |ps| ==> UserByte(s, a + i, 1, ps[i])
    requires NotStored(s, a, a + |ps|, p)
    ensures p !in ps
  {
    hide UserByte;
    forall i | 0 <= i < |ps|
      ensures ps[i] != p
    {
      assert UserByte(s, a + i, 1, ps[i]);
    }
  }

  lemma StoredLast(s: Space, a: int, ps: seq<int>, x: int, p: int)
    requires Inv(s) && a <= x < a + |ps| && UserByte(s, x, 1, p) && NotStored(s, x + 1, a + |ps|, p)
    requires forall i :: 0 <= i < |ps| ==> UserByte(s, a + i, 1, ps[i])
    ensures ps[x - a] == p && forall j :: x - a < j < |ps| ==> ps[j] != p
  {
    hide UserByte, Inv;
    assert UserByte(s, a + (x - a), 1, ps[x - a]);
    OneByte(s, x, 1, p, ps[x - a]);
    forall j | x - a < j < |ps|
      ensures ps[j] != p
    {
      assert UserByte(s, a + j, 1, ps[j]);
    }
  }
}

/** Address spaces and user memory as the objects the kernel holds. */
module AddressSpaceObjects {
  import opened Wrappers
  import opened Machine
  import opened Bits
  import opened Ordered
  import opened AddressSpaces
  import opened UserCopies

  class UserMemory {
    var bytes: Memory

    constructor ()
      ensures bytes == map[]
    {
      bytes := map[];
    }
  }

  class AddressSpace {
    var mappings: Mappings
    var epoch: int
    var activeCpus: set<int>
    var destroyed: bool

    ghost function View(): Space
      reads this
    {
      Space(mappings, epoch, activeCpus, destroyed)
    }

    ghost predicate Valid()
      reads this
    {
      Inv(View())
    }

    constructor ()
      ensures Valid() && View() == Fresh
    {
      mappings, epoch, activeCpus, destroyed := map[], 0, {}, false;
    }

    // `any` over the mappings in ascending order.
    method Overlaps(base: int, end: int) returns (r: bool)
      ensures r <==> exists b :: b in mappings && Touches(mappings[b], base, end)
    {
      hide Touches;
      var keys := Sorted(mappings.Keys);
      for i := 0 to |keys|
        invariant forall j :: 0 <= j < i ==> keys[j] in mappings && !Touches(mappings[keys[j]], base, end)
      {
        assert keys[i] in mappings.Keys;
        if Touches(mappings[keys[i]], base, end) {
          return true;
        }
      }
      forall b | b in mappings
        ensures !Touches(mappings[b], base, end)
      {
        assert b in keys;
        var j :| 0 <= j < |keys| && keys[j] == b;
      }
      r := false;
    }

    static method Admit(space: Cap.Capability, frames: Cap.Capability, base: int, size: PageSize, pages: int, permissions: nat)
      returns (r: Result<int, MapError>)
      ensures r == Admitted(space, frames, base, size, pages, permissions)
    {
      hide Canonical, Contains, Bytes, Cap.ContainsRange;
      if space.kind != Cap.AddressSpace { return Err(WrongAddressSpaceCapability); }
      if frames.kind != Cap.Frame && frames.kind != Cap.PhysRegion { return Err(WrongFrameCapability); }
      if !Contains(space.rights, Cap.MAP) || !Contains(frames.rights, Cap.READ) { return Err(MissingRights); }
      if !Canonical(base) { return Err(NonCanonical); }
      if pages == 0 || permissions == 0 { return Err(EmptyPermissions); }
      var bytes := Bytes(size) * pages;
      if bytes >= U64_LIMIT { return Err(RangeOverflow); }
      if base % Bytes(size) != 0 || frames.base % Bytes(size) != 0 { return Err(Misaligned); }
      if !Cap.ContainsRange(frames, frames.base, bytes) { return Err(OutOfRange); }
      if base + bytes >= U64_LIMIT { return Err(RangeOverflow); }
      r := Ok(base + bytes);
    }

    method MapPages(space: Cap.Capability, frames: Cap.Capability, base: int, size: PageSize, pages: int, permissions: nat)
      returns (r: Result<Mapping, MapError>)
      requires Valid() && Unsigned(frames) && base >= 0 && pages >= 0
      modifies this
      ensures Valid()
      ensures (View(), r) == Map(old(View()), space, frames, base, size, pages, permissions)
      ensures r.Ok? <==> && !old(destroyed) && Mappable(space, frames, base, size, pages, permissions) && old(epoch) + 1 < U64_LIMIT
                         && forall a :: base <= a < base + pages * Bytes(size) ==> Meaning(old(mappings), a).None?
      ensures r.Ok? ==> View() == old(View()).(epoch := old(epoch) + 1, mappings := old(mappings)[base := r.value])
      ensures r.Ok? ==> r.value.physicalBase == frames.base && pages * Bytes(size) <= frames.len
      ensures r.Err? ==> View() == old(View())
    {
      MapMeans(View(), space, frames, base, size, pages, permissions);
      hide Map, Inv, Bytes, Meaning, Mappable;
      r := RecordMap(space, frames, base, size, pages, permissions);
    }

    static lemma MapMeans(s: Space, space: Cap.Capability, frames: Cap.Capability, base: int, size: PageSize, pages: int, permissions: nat)
      requires Inv(s) && Unsigned(frames) && base >= 0 && pages >= 0
      ensures var (s', r) := Map(s, space, frames, base, size, pages, permissions);
        && Inv(s')
        && (r.Ok? <==> && !s.destroyed && Mappable(space, frames, base, size, pages, permissions) && s.epoch + 1 < U64_LIMIT
                       && forall a :: base <= a < base + pages * Bytes(size) ==> Meaning(s.mappings, a).None?)
        && (r.Ok? ==> s' == s.(epoch := s.epoch + 1, mappings := s.mappings[base := r.value]))
        && (r.Ok? ==> r.value.physicalBase == frames.base && pages * Bytes(size) <= frames.len)
        && (r.Err? ==> s' == s)
    {
      hide Map, Inv, Bytes, Meaning, Mappable;
      MapExactly(s, space, frames, base, size, pages, permissions);
      MapAdds(s, space, frames, base, size, pages, permissions);
    }

    method RecordMap(space: Cap.Capability, frames: Cap.Capability, base: int, size: PageSize, pages: int, permissions: nat)
      returns (r: Result<Mapping, MapError>)
      modifies this
      ensures (View(), r) == Map(old(View()), space, frames, base, size, pages, permissions)
    {
      hide Inv, Admitted, Touches, Bytes, Canonical;
      if destroyed { return Err(Destroyed); }
      var admitted := Admit(space, frames, base, size, pages, permissions);
      if admitted.Err? { return Err(admitted.error); }
      var overlap := Overlaps(base, admitted.value);
      if overlap { return Err(Overlap); }
      if epoch + 1 >= U64_LIMIT { return Err(EpochOverflow); }
      epoch := epoch + 1;
      var mapping := Mapping(base, frames.base, size, pages, permissions, epoch);
      mappings := mappings[base := mapping];
      r := Ok(mapping);
    }

    method UnmapPages(base: int) returns (r: Result<Mapping, MapError>)
      requires Valid()
      modifies this
      ensures Valid()
      ensures (View(), r) == Unmap(old(View()), base)
      ensures r.Ok? <==> !old(destroyed) && base in old(mappings) && old(epoch) + 1 < U64_LIMIT
      ensures r.Ok? ==> r.value == old(mappings)[base] && View() == old(View()).(mappings := old(mappings) - {base}, epoch := old(epoch) + 1)
    {
      UnmapRemoves(View(), base);
      hide Inv;
      if destroyed { return Err(Destroyed); }
      if base !in mappings { return Err(NotMapped); }
      var mapping := mappings[base];
      mappings := mappings - {base};
      if epoch + 1 >= U64_LIMIT { return Err(EpochOverflow); }
      epoch := epoch + 1;
      r := Ok(mapping);
    }

    method ProtectPages(space: Cap.Capability, base: int, permissions: nat) returns (r: Result<Mapping, MapError>)
      requires Valid()
      modifies this
      ensures Valid()
      ensures (View(), r) == Protect(old(View()), space, base, permissions)
      ensures r.Ok? <==> && !old(destroyed) && space.kind == Cap.AddressSpace && Contains(space.rights, Cap.MAP) && permissions != 0
                         && old(epoch) + 1 < U64_LIMIT && base in old(mappings)
      ensures r.Ok? ==> && r.value == old(mappings)[base].(permissions := permissions, epoch := old(epoch) + 1)
                        && View() == old(View()).(mappings := old(mappings)[base := r.value], epoch := old(epoch) + 1)
    {
      ProtectRelabels(View(), space, base, permissions);
      hide Inv, Contains;
      if destroyed { return Err(Destroyed); }
      if space.kind != Cap.AddressSpace { return Err(WrongAddressSpaceCapability); }
      if !Contains(space.rights, Cap.MAP) { return Err(MissingRights); }
      if permissions == 0 { return Err(EmptyPermissions); }
      if epoch + 1 >= U64_LIMIT { return Err(EpochOverflow); }
      epoch := epoch + 1;
      if base !in mappings { return Err(NotMapped); }
      var mapping := mappings[base].(permissions := permissions, epoch := epoch);
      mappings := mappings[base := mapping];
      r := Ok(mapping);
    }

    // The search over the mappings.
    static method Search(ms: Mappings, order: seq<int>, a: int) returns (r: Result<(int, nat), MapError>)
      requires forall i :: 0 <= i < |order| ==> order[i] in ms
      ensures r == TranslateIn(ms, order, a)
    {
      assert order[0..] == order;
      hide TranslateIn, Size;
      for i := 0 to |order|
        invariant TranslateIn(ms, order[i..], a) == TranslateIn(ms, order, a)
      {
        TranslateNext(ms, order[i..], a);
        assert order[i..][1..] == order[i + 1..];
        var mapping := ms[order[i]];
        var bytes := Size(mapping);
        if bytes >= U64_LIMIT { return Err(RangeOverflow); }
        var end := mapping.virtualBase + bytes;
        if end >= U64_LIMIT { return Err(RangeOverflow); }
        if mapping.virtualBase <= a < end {
          return Ok((mapping.physicalBase + (a - mapping.virtualBase), mapping.permissions));
        }
      }
      TranslateEnd(ms, order[|order|..], a);
      r := Err(NotMapped);
    }

    static lemma TranslateNext(ms: Mappings, order: seq<int>, a: int)
      requires order != [] && forall i :: 0 <= i < |order| ==> order[i] in ms
      ensures var m := ms[order[0]];
        TranslateIn(ms, order, a) ==
          if Size(m) >= U64_LIMIT || m.virtualBase + Size(m) >= U64_LIMIT then Err(RangeOverflow)
          else if m.virtualBase <= a < m.virtualBase + Size(m) then
            Ok((m.physicalBase + (a - m.virtualBase), m.permissions))
          else TranslateIn(ms, order[1..], a)
    {
      hide Size;
    }

    static lemma TranslateEnd(ms: Mappings, order: seq<int>, a: int)
      requires order == []
      ensures TranslateIn(ms, order, a) == Err(NotMapped)
    {
    }

    // The overflow branches of the search are never taken.
    method TranslateAddress(a: int) returns (r: Result<(int, nat), MapError>)
      requires Valid()
      ensures r == Translate(View(), a)
    {
      if destroyed { return Err(Destroyed); }
      if !Canonical(a) { return Err(NonCanonical); }
      hide Inv, Meaning, TranslateIn, Canonical;
      var keys := Sorted(mappings.Keys);
      assert forall i :: 0 <= i < |keys| ==> keys[i] in mappings.Keys;
      r := Search(mappings, keys, a);
      AnyOrder(View(), keys, a);
    }

    method ActivateOn(space: Cap.Capability, cpu: int) returns (r: Result<(), MapError>)
      requires Valid()
      modifies this
      ensures Valid() && (View(), r) == Activate(old(View()), space, cpu)
      ensures r.Ok? <==> space.kind == Cap.AddressSpace && Contains(space.rights, Cap.MAP) && !old(destroyed)
      ensures View() == if r.Ok? then old(View()).(activeCpus := old(activeCpus) + {cpu}) else old(View())
    {
      r := RequireSpace(space);
      if r.Err? { return; }
      if destroyed { return Err(Destroyed); }
      activeCpus := activeCpus + {cpu};
    }

    method DeactivateOn(space: Cap.Capability, cpu: int) returns (r: Result<(), MapError>)
      requires Valid()
      modifies this
      ensures Valid() && (View(), r) == Deactivate(old(View()), space, cpu)
      ensures r.Ok? <==> space.kind == Cap.AddressSpace && Contains(space.rights, Cap.MAP) && cpu in old(activeCpus)
      ensures View() == if r.Ok? then old(View()).(activeCpus := old(activeCpus) - {cpu}) else old(View())
    {
      r := RequireSpace(space);
      if r.Err? { return; }
      if cpu !in activeCpus { return Err(NotMapped); }
      activeCpus := activeCpus - {cpu};
    }

    method DestroySpace(space: Cap.Capability) returns (r: Result<(), MapError>)
      requires Valid()
      modifies this
      ensures Valid() && (View(), r) == Destroy(old(View()), space)
      ensures r.Ok? <==> && space.kind == Cap.AddressSpace && Contains(space.rights, Cap.MAP)
                         && activeCpus == {} && mappings == map[]
      ensures r.Err? ==> View() == old(View())
      ensures r.Ok? ==> destroyed && forall a :: Translate(View(), a) == Err(Destroyed)
    {
      r := RequireSpace(space);
      if r.Err? { return; }
      if activeCpus != {} || mappings != map[] { return Err(Active); }
      destroyed := true;
    }

    // ---------------------------------------------------------------------
    // User copies

    // The loop of the range check.
    method CollectAddresses(start: int, len: nat, right: nat) returns (r: Result<seq<int>, MapError>)
      requires Valid()
      ensures r == Addresses(View(), start, len, right)
    {
      hide Inv, Translate, Contains, Or;
      var addresses: seq<int> := [];
      for offset := 0 to len
        invariant Addresses(View(), start, offset, right) == Ok(addresses)
      {
        assert Addresses(View(), start, offset + 1, right) ==
          match Byte(View(), start, offset, right) case Err(e) => Err(e) case Ok(p) => Ok(addresses + [p]);
        var a := start + offset;
        var t: Result<(int, nat), MapError> := Err(RangeOverflow);
        if a < U64_LIMIT { t := TranslateAddress(a); }
        if t.Err? {
          FirstError(View(), start, offset, len, right);
          return Err(t.error);
        }
        if !Contains(t.value.1, Or(USER, right)) {
          FirstError(View(), start, offset, len, right);
          return Err(UserFault);
        }
        addresses := addresses + [t.value.0];
      }
      r := Ok(addresses);
    }

    method ValidateUserRange(start: int, len: nat, right: nat) returns (r: Result<seq<int>, MapError>)
      requires Valid()
      ensures r == Addresses(View(), start, len, right)
      ensures right == 1 ==> (r.Ok? <==> UserRange(View(), start, len, 0))
      ensures right == 2 ==> (r.Ok? <==> UserRange(View(), start, len, 1))
    {
      if right == 1 { RangeExactly(View(), start, len, right, 0); }
      if right == 2 { RangeExactly(View(), start, len, right, 1); }
      hide UserRange, Addresses, Inv, UserByte;
      r := CollectAddresses(start, len, right);
    }

    static lemma {:induction false} FirstError(s: Space, start: int, k: nat, len: nat, right: nat)
      requires k < len && Addresses(s, start, k, right).Ok? && Byte(s, start, k, right).Err?
      ensures Addresses(s, start, len, right) == Err(Byte(s, start, k, right).error)
      decreases len
    {
      hide Byte;
      if k < len - 1 { FirstError(s, start, k, len - 1, right); }
    }

    // The bytes at the addresses, read one by one.
    static method Stage(bytes: Memory, addresses: seq<int>) returns (r: Result<seq<int>, MapError>)
      ensures r == Read(bytes, addresses)
    {
      var staged: seq<int> := [];
      for i := 0 to |addresses|
        invariant Read(bytes, addresses[..i]) == Ok(staged)
      {
        assert addresses[..i + 1][..i] == addresses[..i];
        if addresses[i] !in bytes {
          ReadIs(bytes, addresses);
          return Err(UserFault);
        }
        staged := staged + [bytes[addresses[i]]];
      }
      assert addresses[..|addresses|] == addresses;
      r := Ok(staged);
    }

    /** The output buffer is written only when every byte has been read. */
    method CopyFromUser(memory: UserMemory, a: int, output: array<int>) returns (r: Result<(), MapError>)
      requires Valid()
      modifies output
      ensures match CopyFrom(View(), memory.bytes, a, output.Length)
        case Ok(vs) => r.Ok? && output[..] == vs
        case Err(e) => r == Err(e) && output[..] == old(output[..])
      ensures r.Ok? <==> forall x :: a <= x < a + output.Length ==> Readable(View(), memory.bytes, x)
      ensures r.Ok? ==> forall i :: 0 <= i < output.Length ==> Shows(View(), memory.bytes, a + i, output[i])
    {
      CopyFromExactly(View(), memory.bytes, a, output.Length);
      var v := ValidateUserRange(a, output.Length, READ);
      if v.Err? { return Err(v.error); }
      AddressesAre(View(), a, output.Length, READ);
      hide Inv, Byte, Addresses, Read, Readable, Shows;
      var staged := Stage(memory.bytes, v.value);
      if staged.Err? { return Err(staged.error); }
      ReadIs(memory.bytes, v.value);
      forall i | 0 <= i < output.Length {
        output[i] := staged.value[i];
      }
      assert output[..] == staged.value;
      r := Ok(());
    }

    // The bytes stored at the addresses, one by one.
    static method Store(memory: UserMemory, addresses: seq<int>, input: seq<int>)
      requires |addresses| == |input|
      modifies memory
      ensures memory.bytes == Write(old(memory.bytes), addresses, input)
    {
      for i := 0 to |input|
        invariant memory.bytes == Write(old(memory.bytes), addresses[..i], input[..i])
      {
        assert addresses[..i + 1][..i] == addresses[..i] && input[..i + 1][..i] == input[..i];
        memory.bytes := memory.bytes[addresses[i] := input[i]];
      }
      assert addresses[..|input|] == addresses && input[..|input|] == input;
    }

    /** Nothing is written unless the whole range validates. */
    method CopyToUser(memory: UserMemory, a: int, input: seq<int>) returns (r: Result<(), MapError>)
      requires Valid()
      modifies memory
      ensures (memory.bytes, r) == CopyTo(View(), old(memory.bytes), a, input)
      ensures r.Ok? <==> UserRange(View(), a, |input|, 1)
      ensures forall p :: NotStored(View(), a, a + |input|, p) ==> SameAt(memory.bytes, old(memory.bytes), p)
      ensures r.Ok? ==> forall x, p :: a <= x < a + |input| && UserByte(View(), x, 1, p) && NotStored(View(), x + 1, a + |input|, p) ==>
        p in memory.bytes && memory.bytes[p] == input[x - a]
    {
      CopyToExactly(View(), memory.bytes, a, input);
      AddressesAre(View(), a, |input|, WRITE);
      hide UserRange, UserByte, NotStored, SameAt, Inv, Byte, Addresses, Write;
      var v := ValidateUserRange(a, |input|, WRITE);
      if v.Err? { return Err(v.error); }
      Store(memory, v.value, input);
      r := Ok(());
    }
  }
}

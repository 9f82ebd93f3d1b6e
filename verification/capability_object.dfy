/** The capability ledger as the object the kernel holds, with its history as ghost fields. */
module CapabilityLedgers {
  import opened Wrappers
  import opened Machine
  import opened Bits
  import opened Capabilities
  import opened CapabilityRuns

  class CapabilityLedger {
    var records: Ledger

    // The grant of each slot and the handle last issued for it.
    ghost var grants: map<Key, Capability>
    ghost var latest: map<Key, Capability>

    ghost function Past(): History
      reads this
    {
      History(records, grants, latest)
    }

    ghost predicate Valid()
      reads this
    {
      Inv(Past())
    }

    constructor ()
      ensures Valid() && Past() == Empty
    {
      records, grants, latest := map[], map[], map[];
    }

    method MintRoot(kind: Kind, slot: int, owner: int, rights: nat, base: int, len: int)
      returns (r: Result<Capability, Error>)
      requires Valid()
      modifies this
      ensures Valid() && Past() == Step(old(Past()), CapabilityRuns.MintRoot(kind, slot, owner, rights, base, len))
      ensures r == Mint(old(records), kind, slot, owner, rights, base, len).1
      ensures r.Ok? <==> rights < 128 && base + len < U64_LIMIT && (kind, slot) !in old(records)
      ensures r.Ok? ==> r.value == Capability(kind, slot, owner, rights, 0, base, len)
      ensures r.Err? ==> records == old(records)
    {
      StepKeeps(Past(), CapabilityRuns.MintRoot(kind, slot, owner, rights, base, len));
      MintExactly(records, kind, slot, owner, rights, base, len);
      hide Inv, Clear;
      if Clear(rights, ALL) != 0 { return Err(RightsEscalation); }
      if base + len >= U64_LIMIT { return Err(RangeOverflow); }
      if (kind, slot) in records { return Err(DuplicateSlot); }
      var record := Record(owner, rights, 0, base, len, true);
      records := records[(kind, slot) := record];
      r := Ok(Handle((kind, slot), record));
      grants, latest := grants[(kind, slot) := r.value], latest[(kind, slot) := r.value];
    }

    /** Decides, guard by guard, exactly who is entitled. */
    method Check(c: Capability, owner: int, required: nat, base: int, len: int) returns (r: Result<(), Error>)
      requires Valid()
      ensures r.Ok? <==> Entitled(Past(), c, owner, required, base, len)
      ensures r == Validate(records, c, owner, required, base, len)
    {
      EntitledExactly(Past(), c, owner, required, base, len);
      hide Inv, Contains, Entitled;
      if KeyOf(c) !in records { return Err(UnknownSlot); }
      var record := records[KeyOf(c)];
      if !record.live { return Err(Released); }
      if record.generation != c.generation { return Err(StaleGeneration); }
      if record.owner != owner || c.owner != owner { return Err(ForeignOwner); }
      if record.rights != c.rights || !Contains(record.rights, required) { return Err(MissingRights); }
      if record.base != c.base || record.len != c.len { return Err(OutOfRange); }
      if !ContainsRange(c, base, len) { return Err(OutOfRange); }
      r := Ok(());
    }

    method TransferTo(c: Capability, newOwner: int, newRights: nat) returns (r: Result<Capability, Error>)
      requires Valid()
      modifies this
      ensures Valid() && Past() == Step(old(Past()), CapabilityRuns.TransferTo(c, newOwner, newRights))
      ensures r == Transfer(old(records), c, newOwner, newRights).1
      ensures r.Ok? <==> Held(old(Past()), c) && BitsWithin(newRights, c.rights) && c.generation + 1 < U64_LIMIT
      ensures r.Ok? ==> r.value == c.(owner := newOwner, rights := newRights, generation := c.generation + 1)
      ensures r.Ok? ==> Spent(records, c) && Held(Past(), r.value)
      ensures r.Err? ==> records == old(records)
    {
      StepKeeps(Past(), CapabilityRuns.TransferTo(c, newOwner, newRights));
      TransferExactly(Past(), c, newOwner, newRights);
      TransferIs(Past(), c, newOwner, newRights);
      hide Inv, Step, Transfer, Spent, BitsWithin;
      r := RecordTransfer(c, newOwner, newRights);
      if r.Ok? { latest := latest[KeyOf(c) := r.value]; }
    }

    static lemma TransferIs(h: History, c: Capability, newOwner: int, newRights: nat)
      ensures var (l, r) := Transfer(h.ledger, c, newOwner, newRights);
        && Step(h, CapabilityRuns.TransferTo(c, newOwner, newRights)) ==
             (if r.Err? then h.(ledger := l) else h.(ledger := l, latest := h.latest[KeyOf(c) := r.value]))
        && (r.Ok? ==> Spent(l, c)) && (r.Err? ==> l == h.ledger)
    {
      hide Contains;
    }

    method RecordTransfer(c: Capability, newOwner: int, newRights: nat) returns (r: Result<Capability, Error>)
      modifies this`records
      ensures (records, r) == Transfer(old(records), c, newOwner, newRights)
    {
      hide Contains;
      if KeyOf(c) !in records { return Err(UnknownSlot); }
      var record := records[KeyOf(c)];
      var v := ValidateRecord(record, c);
      if v.Err? { return Err(v.error); }
      if !Contains(record.rights, newRights) { return Err(RightsEscalation); }
      if record.generation + 1 >= U64_LIMIT { return Err(GenerationOverflow); }
      record := record.(generation := record.generation + 1, owner := newOwner, rights := newRights);
      records := records[KeyOf(c) := record];
      r := Ok(Handle(KeyOf(c), record));
    }

    method ReleaseHandle(c: Capability) returns (r: Result<(), Error>)
      requires Valid()
      modifies this
      ensures Valid() && Past() == Step(old(Past()), CapabilityRuns.ReleaseHandle(c))
      ensures r == Release(old(records), c).1
      ensures r.Ok? <==> Held(old(Past()), c) && c.generation + 1 < U64_LIMIT
      ensures r.Ok? ==> Spent(records, c) && !records[KeyOf(c)].live
      ensures r.Err? ==> records == old(records)
    {
      StepKeeps(Past(), CapabilityRuns.ReleaseHandle(c));
      ReleaseExactly(Past(), c);
      ReleaseIs(Past(), c);
      hide Inv, Step, Release, Spent;
      r := RecordRelease(c);
    }

    static lemma ReleaseIs(h: History, c: Capability)
      ensures var (l, r) := Release(h.ledger, c);
        && Step(h, CapabilityRuns.ReleaseHandle(c)) == h.(ledger := l)
        && (r.Ok? ==> Spent(l, c)) && (r.Err? ==> l == h.ledger)
    {
    }

    method RecordRelease(c: Capability) returns (r: Result<(), Error>)
      modifies this`records
      ensures (records, r) == Release(old(records), c)
    {
      if KeyOf(c) !in records { return Err(UnknownSlot); }
      var record := records[KeyOf(c)];
      var v := ValidateRecord(record, c);
      if v.Err? { return Err(v.error); }
      if record.generation + 1 >= U64_LIMIT { return Err(GenerationOverflow); }
      records := records[KeyOf(c) := record.(generation := record.generation + 1, live := false)];
      r := Ok(());
    }
  }
}

/** The capability ledger: one record per (kind, slot), and handles that name a
    generation of it. */
module Capabilities {
  import opened Wrappers
  import opened Machine
  import opened Bits

  datatype Kind =
    | BootInfo | Cpu | CpuSet | CpuLocal | PhysRegion | Frame | VirtRegion | AddressSpace | Mmio | IoPort
    | Irq | IrqState | TrapFrame | UserContext | Dma | IommuDomain | Clock | Entropy | Power

  const READ := 1
  const WRITE := 2
  const EXECUTE := 4
  const MAP := 8
  const ROUTE := 16
  const CONTROL := 32
  const TRANSFER := 64
  const ALL := 127

  datatype Capability = Capability(
    kind: Kind, slot: int, owner: int, rights: nat, generation: int, base: int, len: int)

  datatype Record = Record(owner: int, rights: nat, generation: int, base: int, len: int, live: bool)

  datatype Error =
    | DuplicateSlot | UnknownSlot | Released | WrongKind | ForeignOwner | StaleGeneration
    | MissingRights | RightsEscalation | RangeOverflow | OutOfRange | GenerationOverflow

  type Key = (Kind, int)
  type Ledger = map<Key, Record>

  function KeyOf(c: Capability): Key {
    (c.kind, c.slot)
  }

  function Handle(key: Key, r: Record): Capability {
    Capability(key.0, key.1, r.owner, r.rights, r.generation, r.base, r.len)
  }

  // Whole ranges only: an end beyond the address space contains nothing.
  predicate ContainsRange(c: Capability, base: int, len: int) {
    && c.base + c.len < U64_LIMIT && base + len < U64_LIMIT
    && base >= c.base && base + len <= c.base + c.len
  }

  function Mint(l: Ledger, kind: Kind, slot: int, owner: int, rights: nat, base: int, len: int)
    : (Ledger, Result<Capability, Error>)
  {
    if Clear(rights, ALL) != 0 then (l, Err(RightsEscalation))
    else if base + len >= U64_LIMIT then (l, Err(RangeOverflow))
    else if (kind, slot) in l then (l, Err(DuplicateSlot))
    else
      var r := Record(owner, rights, 0, base, len, true);
      (l[(kind, slot) := r], Ok(Handle((kind, slot), r)))
  }

  function Validate(l: Ledger, c: Capability, owner: int, required: nat, base: int, len: int): Result<(), Error> {
    if KeyOf(c) !in l then Err(UnknownSlot)
    else
      var r := l[KeyOf(c)];
      if !r.live then Err(Released)
      else if r.generation != c.generation then Err(StaleGeneration)
      else if r.owner != owner || c.owner != owner then Err(ForeignOwner)
      else if r.rights != c.rights || !Contains(r.rights, required) then Err(MissingRights)
      else if r.base != c.base || r.len != c.len then Err(OutOfRange)
      else if !ContainsRange(c, base, len) then Err(OutOfRange)
      else Ok(())
  }

  function ValidateRecord(r: Record, c: Capability): Result<(), Error> {
    if !r.live then Err(Released)
    else if r.owner != c.owner then Err(ForeignOwner)
    else if r.generation != c.generation then Err(StaleGeneration)
    else if r.rights != c.rights || r.base != c.base || r.len != c.len then Err(OutOfRange)
    else Ok(())
  }

  function Transfer(l: Ledger, c: Capability, newOwner: int, newRights: nat): (Ledger, Result<Capability, Error>) {
    if KeyOf(c) !in l then (l, Err(UnknownSlot))
    else
      var r := l[KeyOf(c)];
      var v := ValidateRecord(r, c);
      if v.Err? then (l, Err(v.error))
      else if !Contains(r.rights, newRights) then (l, Err(RightsEscalation))
      else if r.generation + 1 >= U64_LIMIT then (l, Err(GenerationOverflow))
      else
        var r' := r.(generation := r.generation + 1, owner := newOwner, rights := newRights);
        (l[KeyOf(c) := r'], Ok(Handle(KeyOf(c), r')))
  }

  function Release(l: Ledger, c: Capability): (Ledger, Result<(), Error>) {
    if KeyOf(c) !in l then (l, Err(UnknownSlot))
    else
      var r := l[KeyOf(c)];
      var v := ValidateRecord(r, c);
      if v.Err? then (l, Err(v.error))
      else if r.generation + 1 >= U64_LIMIT then (l, Err(GenerationOverflow))
      else (l[KeyOf(c) := r.(generation := r.generation + 1, live := false)], Ok(()))
  }
}

/** What holds over every run of a ledger. */
module CapabilityRuns {
  import opened Machine
  import opened Bits
  import opened Capabilities

  datatype Op =
    | MintRoot(kind: Kind, slot: int, owner: int, rights: nat, base: int, len: int)
    | TransferTo(handle: Capability, newOwner: int, newRights: nat)
    | ReleaseHandle(handle: Capability)

  // The ledger with its history: the grant of each slot and the handle last issued for it.
  datatype History = History(ledger: Ledger, grants: map<Key, Capability>, latest: map<Key, Capability>)

  const Empty := History(map[], map[], map[])

  function Step(h: History, op: Op): History {
    match op
    case MintRoot(kind, slot, owner, rights, base, len) =>
      var (l, r) := Mint(h.ledger, kind, slot, owner, rights, base, len);
      if r.Err? then h.(ledger := l)
      else History(l, h.grants[(kind, slot) := r.value], h.latest[(kind, slot) := r.value])
    case TransferTo(c, newOwner, newRights) =>
      var (l, r) := Transfer(h.ledger, c, newOwner, newRights);
      if r.Err? then h.(ledger := l) else h.(ledger := l, latest := h.latest[KeyOf(c) := r.value])
    case ReleaseHandle(c) =>
      h.(ledger := Release(h.ledger, c).0)
  }

  ghost function Run(h: History, ops: seq<Op>): History
    decreases |ops|
  {
    if ops == [] then h else Run(Step(h, ops[0]), ops[1..])
  }

  ghost predicate Covered(h: History, key: Key)
    requires key in h.ledger
  {
    var r := h.ledger[key];
    && key in h.grants && key in h.latest
    && h.grants[key].base == r.base && h.grants[key].len == r.len && r.base + r.len < U64_LIMIT
    && Contains(h.grants[key].rights, r.rights)
    && (r.live ==> h.latest[key] == Handle(key, r))
    && h.latest[key].generation == r.generation - (if r.live then 0 else 1)
    && 0 <= r.generation < U64_LIMIT
  }

  ghost predicate Inv(h: History) {
    && h.grants.Keys == h.latest.Keys == h.ledger.Keys
    && forall key :: key in h.ledger ==> Covered(h, key)
  }

  lemma ContainsItself(x: nat)
    ensures Contains(x, x)
  {
    ContainsBits(x, x);
  }

  lemma StepKeeps(h: History, op: Op)
    requires Inv(h)
    ensures Inv(Step(h, op))
  {
    hide Contains, Clear;
    match op {
      case MintRoot(kind, slot, owner, rights, base, len) => ContainsItself(rights);
      case TransferTo(c, newOwner, newRights) =>
        if Transfer(h.ledger, c, newOwner, newRights).1.Ok? {
          var key := KeyOf(c);
          assert Covered(h, key);
          ContainsTransitive(h.grants[key].rights, h.ledger[key].rights, newRights);
        }
      case ReleaseHandle(c) =>
        if Release(h.ledger, c).1.Ok? { assert Covered(h, KeyOf(c)); }
    }
  }

  lemma {:induction false} RunKeeps(h: History, ops: seq<Op>)
    requires Inv(h)
    ensures Inv(Run(h, ops))
    decreases |ops|
  {
    hide Inv, Step;
    if ops != [] {
      StepKeeps(h, ops[0]);
      RunKeeps(Step(h, ops[0]), ops[1..]);
    }
  }

  // In a ledger that keeps the invariant: the latest live handle, its owner, and a request inside it.
  ghost predicate Entitled(h: History, c: Capability, owner: int, required: nat, base: int, len: int) {
    && KeyOf(c) in h.ledger && h.ledger[KeyOf(c)].live
    && KeyOf(c) in h.latest && c == h.latest[KeyOf(c)]
    && owner == c.owner && Contains(c.rights, required)
    && c.base <= base && base + len <= c.base + c.len && base + len < U64_LIMIT
  }

  lemma EntitledExactly(h: History, c: Capability, owner: int, required: nat, base: int, len: int)
    requires Inv(h)
    ensures Validate(h.ledger, c, owner, required, base, len).Ok? <==> Entitled(h, c, owner, required, base, len)
  {
    hide Contains;
    if KeyOf(c) in h.ledger { assert Covered(h, KeyOf(c)); }
  }

  /** In every reachable state a handle validates exactly when it is the one last issued
      for its slot, the slot is live, the caller owns it, and the request is inside it. */
  lemma ValidatesExactly(ops: seq<Op>, c: Capability, owner: int, required: nat, base: int, len: int)
    ensures var h := Run(Empty, ops);
      Validate(h.ledger, c, owner, required, base, len).Ok? <==> Entitled(h, c, owner, required, base, len)
  {
    assert Inv(Empty);
    RunKeeps(Empty, ops);
    EntitledExactly(Run(Empty, ops), c, owner, required, base, len);
  }

  // The live handle last issued for its slot.
  ghost predicate Held(h: History, c: Capability) {
    && KeyOf(c) in h.ledger && h.ledger[KeyOf(c)].live
    && KeyOf(c) in h.latest && c == h.latest[KeyOf(c)]
  }

  lemma SevenBits(rights: nat)
    ensures Clear(rights, ALL) == 0 <==> rights < 128
  {
    assert Pow2(7) == 128;
    ClearLow(rights, 7);
    hide Clear, Pow2;
  }

  /** A mint is accepted exactly for known rights, a range below 2^64 and a slot never used;
      it hands out and records what was asked for, at generation 0. */
  lemma MintExactly(l: Ledger, kind: Kind, slot: int, owner: int, rights: nat, base: int, len: int)
    ensures var (l', r) := Mint(l, kind, slot, owner, rights, base, len);
      && (r.Ok? <==> rights < 128 && base + len < 0x1_0000_0000_0000_0000 && (kind, slot) !in l)
      && (r.Ok? ==> r.value == Capability(kind, slot, owner, rights, 0, base, len))
      && (r.Ok? ==> l' == l[(kind, slot) := Record(owner, rights, 0, base, len, true)])
      && (r.Err? ==> l' == l)
  {
    SevenBits(rights);
    hide Clear;
  }

  /** A transfer is accepted exactly for the held handle, rights among its own and a
      generation left; the new handle differs in owner, rights and generation only. */
  lemma TransferExactly(h: History, c: Capability, newOwner: int, newRights: nat)
    requires Inv(h)
    ensures var (l', r) := Transfer(h.ledger, c, newOwner, newRights);
      && (r.Ok? <==> Held(h, c) && BitsWithin(newRights, c.rights) && c.generation + 1 < 0x1_0000_0000_0000_0000)
      && (r.Ok? ==> r.value == c.(owner := newOwner, rights := newRights, generation := c.generation + 1))
      && (r.Ok? ==> l' == h.ledger[KeyOf(c) := Record(newOwner, newRights, c.generation + 1, c.base, c.len, true)])
      && (r.Err? ==> l' == h.ledger)
  {
    if KeyOf(c) in h.ledger { assert Covered(h, KeyOf(c)); }
    ContainsBits(c.rights, newRights);
    hide Contains, BitsWithin;
  }

  /** A release is accepted exactly for the held handle with a generation left; the slot is
      dead from then on. */
  lemma ReleaseExactly(h: History, c: Capability)
    requires Inv(h)
    ensures var (l', r) := Release(h.ledger, c);
      && (r.Ok? <==> Held(h, c) && c.generation + 1 < 0x1_0000_0000_0000_0000)
      && (r.Ok? ==> l' == h.ledger[KeyOf(c) := Record(c.owner, c.rights, c.generation + 1, c.base, c.len, false)])
      && (r.Err? ==> l' == h.ledger)
  {
    if KeyOf(c) in h.ledger { assert Covered(h, KeyOf(c)); }
    hide Contains;
  }

  /** At most one handle per slot validates at a time. */
  lemma OneHandleAtATime(l: Ledger, c: Capability, d: Capability, o: int, p: int, x: nat, y: nat, i: int, m: int, j: int, n: int)
    requires KeyOf(c) == KeyOf(d)
    requires Validate(l, c, o, x, i, m).Ok? && Validate(l, d, p, y, j, n).Ok?
    ensures c == d && o == p
  {
  }

  // ---------------------------------------------------------------------
  // Consumed handles

  // Older than its slot's record: refused by every operation.
  ghost predicate Spent(l: Ledger, c: Capability) {
    KeyOf(c) in l && (c.generation < l[KeyOf(c)].generation || !l[KeyOf(c)].live)
  }

  lemma SpentStep(h: History, op: Op, c: Capability)
    requires Spent(h.ledger, c)
    ensures Spent(Step(h, op).ledger, c)
  {
    hide Contains, Clear;
  }

  lemma {:induction false} SpentForEver(h: History, ops: seq<Op>, c: Capability)
    requires Spent(h.ledger, c)
    ensures Spent(Run(h, ops).ledger, c)
    decreases |ops|
  {
    hide Spent, Step;
    if ops != [] {
      SpentStep(h, ops[0], c);
      SpentForEver(Step(h, ops[0]), ops[1..], c);
    }
  }

  /** A handle that was transferred or released never validates, transfers or releases
      again, whatever happens afterwards. */
  lemma ConsumedForEver(h: History, op: Op, ops: seq<Op>, owner: int, required: nat, base: int, len: int, to: int, rights: nat)
    requires (op.TransferTo? && Transfer(h.ledger, op.handle, op.newOwner, op.newRights).1.Ok?)
      || (op.ReleaseHandle? && Release(h.ledger, op.handle).1.Ok?)
    ensures var later := Run(Step(h, op), ops).ledger;
      && Validate(later, op.handle, owner, required, base, len).Err?
      && Transfer(later, op.handle, to, rights).1.Err?
      && Release(later, op.handle).1.Err?
  {
    assert Spent(Step(h, op).ledger, op.handle);
    SpentForEver(Step(h, op), ops, op.handle);
    hide Run, Step, Contains;
  }

  /** Whatever a handle allows was granted when its slot was minted. */
  lemma WithinGrant(ops: seq<Op>, c: Capability, owner: int, required: nat, base: int, len: int)
    requires Validate(Run(Empty, ops).ledger, c, owner, required, base, len).Ok?
    ensures var h := Run(Empty, ops);
      && KeyOf(c) in h.grants
      && var g := h.grants[KeyOf(c)];
         && g.kind == c.kind && Contains(g.rights, required)
         && g.base <= base && base + len <= g.base + g.len
  {
    assert Inv(Empty);
    RunKeeps(Empty, ops);
    var h := Run(Empty, ops);
    GrantKind(ops);
    hide Run;
    assert Covered(h, KeyOf(c));
    ContainsTransitive(h.grants[KeyOf(c)].rights, c.rights, required);
  }

  ghost predicate GrantsOwnKeys(h: History) {
    forall key :: key in h.grants ==> KeyOf(h.grants[key]) == key
  }

  // Every grant of the first history is still there in the second.
  ghost predicate GrantsRemain(h: History, h': History) {
    forall key :: key in h.grants ==> key in h'.grants && h'.grants[key] == h.grants[key]
  }

  lemma GrantStep(h: History, op: Op)
    requires Inv(h) && GrantsOwnKeys(h)
    ensures GrantsOwnKeys(Step(h, op)) && GrantsRemain(h, Step(h, op))
  {
    hide Contains, Clear, Covered;
  }

  // A grant is stored under its own key, and never replaced.
  lemma {:induction false} GrantsKept(h: History, ops: seq<Op>)
    requires Inv(h) && GrantsOwnKeys(h)
    ensures GrantsOwnKeys(Run(h, ops)) && GrantsRemain(h, Run(h, ops))
    decreases |ops|
  {
    hide Inv, Step;
    if ops != [] {
      StepKeeps(h, ops[0]);
      GrantStep(h, ops[0]);
      GrantsKept(Step(h, ops[0]), ops[1..]);
    }
  }

  lemma GrantKind(ops: seq<Op>)
    ensures GrantsOwnKeys(Run(Empty, ops))
  {
    assert Inv(Empty);
    GrantsKept(Empty, ops);
  }
}

/** Authorisation of privileged actions against the capability ledger. */
module Actions {
  import opened Wrappers
  import opened Machine
  import opened Bits
  import opened Capabilities
  import opened CapabilityRuns
  import AS = AddressSpaces

  datatype Action =
    | StartCpu(cpu: u16)
    | SendIpi(targets: set<int>, vector: u8, epoch: u64)
    | TlbShootdown(targets: set<int>, epoch: u64, virtualBase: u64, len: u64)
    | AckIrq(vector: u8) | MaskIrq(vector: u8) | UnmaskIrq(vector: u8)
    | MapPages(virtualBase: u64, pageSize: AS.PageSize, pages: u64, permissions: nat)
    | UnmapPages(virtualBase: u64)
    | ProtectPages(virtualBase: u64, permissions: nat)
    | MmioRead(address: u64, width: u8) | MmioWrite(address: u64, width: u8, value: u64)
    | PioRead(port: u16, width: u8) | PioWrite(port: u16, width: u8, data: u32)
    | SubmitDma(dmaSlot: u32)
    | ArmTimer(deadline: u64) | CancelTimer
    | EnqueueTask(task: u32, cpu: u16)
    | EnterContext(context: u32)
    | Reboot | PowerOff | Halt

  datatype PlatformError = Capability(error: Error) | InvalidPayload | RangeOverflow | InvalidWidth

  datatype Authority = Authority(kind: Kind, rights: nat, base: int, len: int)

  datatype Authorized = Authorized(action: Action, slot: int, generation: int)

  function ValidateAction(a: Action): Result<(), PlatformError> {
    match a
    case TlbShootdown(_, _, base, len) =>
      if len == 0 then Err(InvalidPayload)
      else if base + len >= U64_LIMIT then Err(PlatformError.RangeOverflow)
      else Ok(())
    case MmioRead(_, width) => if width in {1, 2, 4, 8} then Ok(()) else Err(InvalidWidth)
    case MmioWrite(_, width, _) => if width in {1, 2, 4, 8} then Ok(()) else Err(InvalidWidth)
    case PioRead(_, width) => if width in {1, 2, 4} then Ok(()) else Err(InvalidWidth)
    case PioWrite(_, width, _) => if width in {1, 2, 4} then Ok(()) else Err(InvalidWidth)
    case _ => Ok(())
  }

  // What an action needs.
  function ActionAuthority(a: Action): Result<Authority, PlatformError> {
    match a
    case StartCpu(cpu) => Ok(Authority(Cpu, CONTROL, cpu, 1))
    case SendIpi(_, _, _) => Ok(Authority(CpuSet, CONTROL, 0, 0))
    case TlbShootdown(_, _, _, _) => Ok(Authority(CpuSet, CONTROL, 0, 0))
    case AckIrq(vector) => Ok(Authority(Irq, CONTROL, vector, 1))
    case MaskIrq(vector) => Ok(Authority(Irq, CONTROL, vector, 1))
    case UnmaskIrq(vector) => Ok(Authority(Irq, CONTROL, vector, 1))
    case MapPages(base, size, pages, _) =>
      if AS.Bytes(size) * pages >= U64_LIMIT then Err(PlatformError.RangeOverflow)
      else Ok(Authority(AddressSpace, MAP, base, AS.Bytes(size) * pages))
    case UnmapPages(base) => Ok(Authority(AddressSpace, MAP, base, 1))
    case ProtectPages(base, _) => Ok(Authority(AddressSpace, MAP, base, 1))
    case MmioRead(address, width) => Ok(Authority(Mmio, READ, address, width))
    case MmioWrite(address, width, _) => Ok(Authority(Mmio, WRITE, address, width))
    case PioRead(port, width) => Ok(Authority(IoPort, READ, port, width))
    case PioWrite(port, width, _) => Ok(Authority(IoPort, WRITE, port, width))
    case SubmitDma(slot) => Ok(Authority(Dma, CONTROL, slot, 1))
    case ArmTimer(_) => Ok(Authority(Clock, CONTROL, 0, 0))
    case CancelTimer => Ok(Authority(Clock, CONTROL, 0, 0))
    case EnqueueTask(_, cpu) => Ok(Authority(Cpu, CONTROL, cpu, 1))
    case EnterContext(context) => Ok(Authority(UserContext, CONTROL, context, 1))
    case Reboot => Ok(Authority(Power, CONTROL, 0, 0))
    case PowerOff => Ok(Authority(Power, CONTROL, 0, 0))
    case Halt => Ok(Authority(Power, CONTROL, 0, 0))
  }

  function Authorize(l: Ledger, owner: int, c: Capabilities.Capability, a: Action): Result<Authorized, PlatformError> {
    var v := ValidateAction(a);
    if v.Err? then Err(v.error)
    else
      var need := ActionAuthority(a);
      if need.Err? then Err(need.error)
      else if c.kind != need.value.kind then Err(PlatformError.Capability(WrongKind))
      else
        var r := Validate(l, c, owner, need.value.rights, need.value.base, need.value.len);
        if r.Err? then Err(PlatformError.Capability(r.error)) else Ok(Authorized(a, c.slot, c.generation))
  }

  // A well-formed action of a known authority.
  predicate WellFormed(a: Action) {
    ValidateAction(a).Ok? && ActionAuthority(a).Ok?
  }

  /** In every reachable ledger an action is authorised exactly when it is well formed, the
      handle is the live one last issued for a slot of the needed kind, its owner asks, and
      the needed rights and range are inside it. */
  lemma AuthorizedExactly(ops: seq<Op>, owner: int, c: Capabilities.Capability, a: Action)
    ensures var h := Run(Empty, ops);
      Authorize(h.ledger, owner, c, a).Ok? <==>
        && WellFormed(a)
        && var need := ActionAuthority(a).value;
           c.kind == need.kind && Entitled(h, c, owner, need.rights, need.base, need.len)
  {
    hide Run, Contains, Validate, ActionAuthority, ValidateAction;
    if WellFormed(a) {
      var need := ActionAuthority(a).value;
      ValidatesExactly(ops, c, owner, need.rights, need.base, need.len);
    }
  }

  /** Every action ever authorised lies inside what was granted when its slot was minted. */
  lemma AuthorizedWithinGrant(ops: seq<Op>, owner: int, c: Capabilities.Capability, a: Action)
    requires Authorize(Run(Empty, ops).ledger, owner, c, a).Ok?
    ensures WellFormed(a) && KeyOf(c) in Run(Empty, ops).grants
    ensures var need := ActionAuthority(a).value; var g := Run(Empty, ops).grants[KeyOf(c)];
      && g.kind == need.kind && Contains(g.rights, need.rights)
      && g.base <= need.base && need.base + need.len <= g.base + g.len
  {
    hide Run, Contains, Validate, ActionAuthority, ValidateAction;
    var need := ActionAuthority(a).value;
    WithinGrant(ops, c, owner, need.rights, need.base, need.len);
  }

  // ---------------------------------------------------------------------
  // What each action needs, in bits and addresses

  predicate WellShaped(a: Action) {
    && (a.TlbShootdown? ==> 0 < a.len && a.virtualBase + a.len < 0x1_0000_0000_0000_0000)
    && (a.MmioRead? || a.MmioWrite? ==> a.width == 1 || a.width == 2 || a.width == 4 || a.width == 8)
    && (a.PioRead? || a.PioWrite? ==> a.width == 1 || a.width == 2 || a.width == 4)
    && (a.MapPages? ==> a.pages * AS.Bytes(a.pageSize) < 0x1_0000_0000_0000_0000)
  }

  predicate PageAction(a: Action) {
    a.MapPages? || a.UnmapPages? || a.ProtectPages?
  }

  predicate PortAction(a: Action) {
    a.PioRead? || a.PioWrite?
  }

  predicate MemoryAction(a: Action) {
    a.MmioRead? || a.MmioWrite?
  }

  predicate VectorAction(a: Action) {
    a.AckIrq? || a.MaskIrq? || a.UnmaskIrq?
  }

  function KindNeeded(a: Action): Kind {
    if a.StartCpu? || a.EnqueueTask? then Cpu
    else if a.SendIpi? || a.TlbShootdown? then CpuSet
    else if VectorAction(a) then Irq
    else if PageAction(a) then AddressSpace
    else if MemoryAction(a) then Mmio
    else if PortAction(a) then IoPort
    else if a.SubmitDma? then Dma
    else if a.ArmTimer? || a.CancelTimer? then Clock
    else if a.EnterContext? then UserContext
    else Power
  }

  // Bit 0 reads, bit 1 writes, bit 3 maps, bit 5 controls.
  function BitNeeded(a: Action): nat {
    if a.MmioRead? || a.PioRead? then 0
    else if a.MmioWrite? || a.PioWrite? then 1
    else if PageAction(a) then 3
    else 5
  }

  // The bytes, ports, vector, CPU, slot or context an action touches: from First up to End.
  function First(a: Action): int {
    if a.StartCpu? || a.EnqueueTask? then a.cpu
    else if VectorAction(a) then a.vector
    else if PageAction(a) then a.virtualBase
    else if MemoryAction(a) then a.address
    else if PortAction(a) then a.port
    else if a.SubmitDma? then a.dmaSlot
    else if a.EnterContext? then a.context
    else 0
  }

  function End(a: Action): int {
    if a.MapPages? then a.virtualBase + a.pages * AS.Bytes(a.pageSize)
    else if MemoryAction(a) || PortAction(a) then First(a) + a.width
    else if BitNeeded(a) == 3 || VectorAction(a) || KindNeeded(a) in {Cpu, Dma, UserContext} then First(a) + 1
    else 0
  }

  lemma ShapeIs(a: Action)
    ensures WellFormed(a) <==> WellShaped(a)
  {
  }

  lemma RightsAre(a: Action)
    requires ActionAuthority(a).Ok?
    ensures ActionAuthority(a).value.kind == KindNeeded(a)
    ensures ActionAuthority(a).value.rights ==
      match BitNeeded(a) case 0 => 1 case 1 => 2 case 3 => 8 case _ => 32
  {
  }

  lemma BitWeights(n: nat)
    requires n in {0, 1, 3, 5}
    ensures Pow2(n) == match n case 0 => 1 case 1 => 2 case 3 => 8 case _ => 32
  {
    assert Pow2(0) == 1 && Pow2(1) == 2 && Pow2(3) == 8 && Pow2(5) == 32;
  }

  lemma RangeIs(a: Action)
    requires ActionAuthority(a).Ok?
    ensures var need := ActionAuthority(a).value; need.base == First(a) && need.base + need.len == End(a)
  {
  }

  lemma NeedIs(a: Action)
    ensures WellFormed(a) <==> WellShaped(a)
    ensures WellFormed(a) ==>
      var need := ActionAuthority(a).value;
      && need.kind == KindNeeded(a) && need.base == First(a) && need.base + need.len == End(a)
      && need.rights == Pow2(BitNeeded(a))
  {
    ShapeIs(a);
    assert BitNeeded(a) in {0, 1, 3, 5};
    hide Pow2, WellShaped, ActionAuthority, ValidateAction, KindNeeded, BitNeeded, First, End;
    if WellFormed(a) {
      RightsAre(a);
      RangeIs(a);
      BitWeights(BitNeeded(a));
    }
  }

  /** In every reachable ledger an action is authorised if and only if it is well shaped and
      the caller holds the live handle last issued for a slot of the kind it needs, whose
      rights have the bit and whose range holds all it touches; the grant of that slot then
      has the bit and holds the range too. */
  lemma AuthorizedMeans(ops: seq<Op>, owner: int, c: Capabilities.Capability, a: Action)
    ensures var h := Run(Empty, ops); var r := Authorize(h.ledger, owner, c, a);
      && (r.Ok? <==>
            && WellShaped(a) && KeyOf(c) in h.ledger && h.ledger[KeyOf(c)].live
            && KeyOf(c) in h.latest && c == h.latest[KeyOf(c)] && owner == c.owner
            && c.kind == KindNeeded(a) && Bit(c.rights, BitNeeded(a))
            && c.base <= First(a) && End(a) <= c.base + c.len)
      && (r.Ok? ==> r.value == Authorized(a, c.slot, c.generation))
      && (r.Ok? ==> KeyOf(c) in h.grants
                    && var g := h.grants[KeyOf(c)];
                       && g.kind == KindNeeded(a) && Bit(g.rights, BitNeeded(a))
                       && g.base <= First(a) && End(a) <= g.base + g.len)
  {
    var h := Run(Empty, ops);
    AuthorizedExactly(ops, owner, c, a);
    NeedIs(a);
    ContainsOne(c.rights, BitNeeded(a));
    LedgerInv(ops);
    if Authorize(h.ledger, owner, c, a).Ok? {
      AuthorizedWithinGrant(ops, owner, c, a);
      ContainsOne(h.grants[KeyOf(c)].rights, BitNeeded(a));
    }
    hide Run, Contains, Bit, Pow2, ActionAuthority, ValidateAction, Validate, KindNeeded, BitNeeded, First, End, WellShaped;
  }

  // A latest handle ends below 2^64.
  lemma LedgerInv(ops: seq<Op>)
    ensures var h := Run(Empty, ops);
      forall key :: key in h.ledger && h.ledger[key].live ==> key in h.latest && h.latest[key].base + h.latest[key].len < U64_LIMIT
  {
    assert CapabilityRuns.Inv(Empty);
    RunKeeps(Empty, ops);
    hide Run;
    var h := Run(Empty, ops);
    forall key | key in h.ledger && h.ledger[key].live
      ensures key in h.latest && h.latest[key].base + h.latest[key].len < U64_LIMIT
    {
      assert Covered(h, key);
    }
  }

  /** A consumed handle authorises nothing, ever again. */
  lemma ConsumedAuthorizesNothing(h: History, op: Op, ops: seq<Op>, owner: int, a: Action)
    requires (op.TransferTo? && Transfer(h.ledger, op.handle, op.newOwner, op.newRights).1.Ok?)
      || (op.ReleaseHandle? && Release(h.ledger, op.handle).1.Ok?)
    ensures Authorize(Run(CapabilityRuns.Step(h, op), ops).ledger, owner, op.handle, a).Err?
  {
    hide Run, CapabilityRuns.Step, Contains, Validate, ActionAuthority, ValidateAction;
    if WellFormed(a) {
      var need := ActionAuthority(a).value;
      ConsumedForEver(h, op, ops, owner, need.rights, need.base, need.len, 0, 0);
    }
  }
}

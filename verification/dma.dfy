/** DMA buffers: pins, ownership, and the device addresses they are mapped at. */
module DmaBuffers {
  import opened Wrappers
  import opened Machine
  import opened Bits
  import Cap = Capabilities

  datatype Direction = ToDevice | FromDevice | Bidirectional
  datatype Ownership = Cpu | Device
  datatype Mapping = Mapping(
    device: int, domain: int, base: int, len: int, direction: Direction, generation: int, ownership: Ownership)
  datatype Request = Request(slot: int, device: int, domain: int, base: int, len: int, direction: Direction)
  datatype Mode = AbsentIdentity | Present
  datatype Domain = Domain(id: int, device: int, apertureBase: int, apertureLen: int, mode: Mode)
  datatype Segment = Segment(deviceAddress: int, len: int)

  datatype Error =
    | WrongCapability | MissingRights | OutOfRange | DuplicateMapping | UnknownMapping | StaleGeneration
    | ForeignDevice | ForeignDomain | GenerationOverflow | ZeroLength | WrongOwnership | DuplicateDomain
    | UnknownDomain | DomainCapability | IommuRequired | AlreadyMapped | NotMapped | SegmentOverflow

  datatype State = State(
    mappings: map<int, Mapping>, generations: map<int, int>, domains: map<int, Domain>, segments: map<int, seq<Segment>>)

  const Fresh := State(map[], map[], map[], map[])

  // The slot's generation counter.
  function Counter(s: State, slot: int): int {
    if slot in s.generations then s.generations[slot] else 0
  }

  function Pin(s: State, region: Cap.Capability, q: Request): (State, Result<Mapping, Error>) {
    if region.kind != Cap.Dma && region.kind != Cap.Frame && region.kind != Cap.PhysRegion then (s, Err(WrongCapability))
    else if !Contains(region.rights, Or(Cap.READ, Cap.WRITE)) then (s, Err(MissingRights))
    else if q.len == 0 then (s, Err(ZeroLength))
    else if !Cap.ContainsRange(region, q.base, q.len) then (s, Err(OutOfRange))
    else if q.slot in s.mappings then (s, Err(DuplicateMapping))
    else
      var m := Mapping(q.device, q.domain, q.base, q.len, q.direction, Counter(s, q.slot), Cpu);
      (s.(mappings := s.mappings[q.slot := m]), Ok(m))
  }

  // A known domain is replaced before the duplicate is reported.
  function RegisterDomain(s: State, d: Domain): (State, Result<(), Error>) {
    if d.apertureLen == 0 || d.apertureBase + d.apertureLen >= U64_LIMIT then (s, Err(SegmentOverflow))
    else (s.(domains := s.domains[d.id := d]), if d.id in s.domains then Err(DuplicateDomain) else Ok(()))
  }

  // Whether the domain admits the buffer at this device address.
  function CheckDomain(d: Domain, m: Mapping, c: Option<Cap.Capability>, address: int): Result<(), Error> {
    match d.mode
    case AbsentIdentity => if c.Some? || address != m.base then Err(IommuRequired) else Ok(())
    case Present =>
      if c.None? then Err(DomainCapability)
      else if c.value.kind != Cap.IommuDomain || !Contains(c.value.rights, Cap.MAP) || c.value.slot != d.id then Err(DomainCapability)
      else if address + m.len >= U64_LIMIT then Err(SegmentOverflow)
      else if d.apertureBase + d.apertureLen >= U64_LIMIT then Err(SegmentOverflow)
      else if address < d.apertureBase || address + m.len > d.apertureBase + d.apertureLen then Err(OutOfRange)
      else Ok(())
  }

  // Domain, device, base and length come from the caller's handle.
  function MapDomain(s: State, slot: int, m: Mapping, c: Option<Cap.Capability>, address: int): (State, Result<seq<Segment>, Error>) {
    if slot !in s.mappings then (s, Err(UnknownMapping))
    else if s.mappings[slot].generation != m.generation then (s, Err(StaleGeneration))
    else if slot in s.segments then (s, Err(AlreadyMapped))
    else if m.domain !in s.domains then (s, Err(UnknownDomain))
    else
      var d := s.domains[m.domain];
      if d.device != m.device then (s, Err(ForeignDevice))
      else
        var r := CheckDomain(d, m, c, address);
        if r.Err? then (s, Err(r.error))
        else
          var segs := [Segment(address, m.len)];
          (s.(segments := s.segments[slot := segs]), Ok(segs))
  }

  function UnmapDomain(s: State, slot: int, m: Mapping): (State, Result<seq<Segment>, Error>) {
    if slot !in s.mappings then (s, Err(UnknownMapping))
    else if s.mappings[slot].generation != m.generation then (s, Err(StaleGeneration))
    else if s.mappings[slot].ownership != Cpu then (s, Err(WrongOwnership))
    else if slot !in s.segments then (s, Err(NotMapped))
    else (s.(segments := s.segments - {slot}), Ok(s.segments[slot]))
  }

  function Validate(s: State, slot: int, m: Mapping, device: int, domain: int): Result<(), Error> {
    if slot !in s.mappings then Err(UnknownMapping)
    else if s.mappings[slot].generation != m.generation then Err(StaleGeneration)
    else if s.mappings[slot].device != device || m.device != device then Err(ForeignDevice)
    else if s.mappings[slot].domain != domain || m.domain != domain then Err(ForeignDomain)
    else Ok(())
  }

  function Unpin(s: State, slot: int, m: Mapping): (State, Result<(), Error>) {
    if slot !in s.mappings then (s, Err(UnknownMapping))
    else if s.mappings[slot].generation != m.generation then (s, Err(StaleGeneration))
    else if s.mappings[slot].ownership != Cpu then (s, Err(WrongOwnership))
    else if slot in s.segments then (s, Err(AlreadyMapped))
    else if s.mappings[slot].generation + 1 >= U64_LIMIT then (s, Err(GenerationOverflow))
    else
      (s.(mappings := s.mappings - {slot}, generations := s.generations[slot := s.mappings[slot].generation + 1]), Ok(()))
  }

  // `sync_for_device` and `sync_for_cpu`
  function Sync(s: State, slot: int, m: Mapping, expected: Ownership, next: Ownership): (State, Result<Mapping, Error>) {
    if slot !in s.mappings then (s, Err(UnknownMapping))
    else if s.mappings[slot].generation != m.generation then (s, Err(StaleGeneration))
    else if s.mappings[slot].ownership != expected || m.ownership != expected then (s, Err(WrongOwnership))
    else
      var live := s.mappings[slot].(ownership := next);
      (s.(mappings := s.mappings[slot := live]), Ok(live))
  }

  // ---------------------------------------------------------------------
  // Runs

  datatype Op =
    | PinBuffer(region: Cap.Capability, request: Request)
    | AddDomain(domain: Domain)
    | MapBuffer(slot: int, handle: Mapping, capability: Option<Cap.Capability>, address: int)
    | UnmapBuffer(slot: int, handle: Mapping)
    | UnpinBuffer(slot: int, handle: Mapping)
    | GiveToDevice(slot: int, handle: Mapping)
    | TakeForCpu(slot: int, handle: Mapping)

  function Step(s: State, op: Op): State {
    match op
    case PinBuffer(region, q) => Pin(s, region, q).0
    case AddDomain(d) => RegisterDomain(s, d).0
    case MapBuffer(slot, m, c, a) => MapDomain(s, slot, m, c, a).0
    case UnmapBuffer(slot, m) => UnmapDomain(s, slot, m).0
    case UnpinBuffer(slot, m) => Unpin(s, slot, m).0
    case GiveToDevice(slot, m) => Sync(s, slot, m, Cpu, Device).0
    case TakeForCpu(slot, m) => Sync(s, slot, m, Device, Cpu).0
  }

  ghost function Run(s: State, ops: seq<Op>): State
    decreases |ops|
  {
    if ops == [] then s else Run(Step(s, ops[0]), ops[1..])
  }

  /** A live pin carries its slot's counter, and only live pins have segments. */
  ghost predicate Inv(s: State) {
    && (forall slot :: slot in s.mappings ==> s.mappings[slot].generation == Counter(s, slot))
    && s.segments.Keys <= s.mappings.Keys
  }

  lemma StepKeeps(s: State, op: Op)
    requires Inv(s)
    ensures Inv(Step(s, op)) && forall slot :: Counter(s, slot) <= Counter(Step(s, op), slot)
  {
    hide Contains, Or;
  }

  lemma {:induction false} RunKeeps(s: State, ops: seq<Op>)
    requires Inv(s)
    ensures Inv(Run(s, ops)) && forall slot :: Counter(s, slot) <= Counter(Run(s, ops), slot)
    decreases |ops|
  {
    hide Inv, Step, Counter;
    if ops != [] {
      StepKeeps(s, ops[0]);
      RunKeeps(Step(s, ops[0]), ops[1..]);
    }
  }

  // ---------------------------------------------------------------------
  // Old handles

  // Every operation refuses the handle for this slot.
  ghost predicate Refused(s: State, slot: int, m: Mapping) {
    && (forall c, a :: MapDomain(s, slot, m, c, a).1.Err?)
    && UnmapDomain(s, slot, m).1.Err? && Unpin(s, slot, m).1.Err?
    && Sync(s, slot, m, Cpu, Device).1.Err? && Sync(s, slot, m, Device, Cpu).1.Err?
    && forall device, domain :: Validate(s, slot, m, device, domain).Err?
  }

  /** A handle that was unpinned is refused for ever, however the slot is used again. */
  lemma UnpinnedForEver(s: State, slot: int, m: Mapping, ops: seq<Op>)
    requires Inv(s) && Unpin(s, slot, m).1.Ok?
    ensures Refused(Run(Unpin(s, slot, m).0, ops), slot, m)
  {
    StepKeeps(s, UnpinBuffer(slot, m));
    var s' := Unpin(s, slot, m).0;
    assert Counter(s', slot) == m.generation + 1;
    RunKeeps(s', ops);
    var later := Run(s', ops);
    assert slot in later.mappings ==> later.mappings[slot].generation > m.generation;
  }

  // ---------------------------------------------------------------------
  // Device ownership

  predicate TakesBack(s: State, op: Op, slot: int) {
    op.TakeForCpu? && op.slot == slot && Sync(s, slot, op.handle, Device, Cpu).1.Ok?
  }

  ghost predicate NeverTakenBack(s: State, ops: seq<Op>, slot: int)
    decreases |ops|
  {
    ops != [] ==> !TakesBack(s, ops[0], slot) && NeverTakenBack(Step(s, ops[0]), ops[1..], slot)
  }

  ghost predicate OwnedByDevice(s: State, slot: int) {
    slot in s.mappings && s.mappings[slot].ownership == Device
  }

  lemma DeviceStep(s: State, op: Op, slot: int)
    requires OwnedByDevice(s, slot) && !TakesBack(s, op, slot)
    ensures var s' := Step(s, op);
      && slot in s'.mappings && s'.mappings[slot] == s.mappings[slot]
      && (slot in s.segments ==> slot in s'.segments && s'.segments[slot] == s.segments[slot])
  {
    hide Contains, Or, CheckDomain;
  }

  /** From the moment a buffer is given to the device until it is taken back, its pin stays
      as it was and its segments, once there, stay as they are. */
  lemma {:induction false} DeviceKeepsBuffer(s: State, ops: seq<Op>, slot: int)
    requires OwnedByDevice(s, slot) && NeverTakenBack(s, ops, slot)
    ensures var s' := Run(s, ops);
      && slot in s'.mappings && s'.mappings[slot] == s.mappings[slot]
      && (slot in s.segments ==> slot in s'.segments && s'.segments[slot] == s.segments[slot])
    decreases |ops|
  {
    hide Step, TakesBack;
    if ops != [] {
      DeviceStep(s, ops[0], slot);
      DeviceKeepsBuffer(Step(s, ops[0]), ops[1..], slot);
    }
  }

  // ---------------------------------------------------------------------
  // Where segments lie

  // A segment of the pinned length, at the buffer itself or inside the device's aperture.
  predicate FitsAt(d: Domain, pin: Mapping, address: int, len: int) {
    && d.device == pin.device && len == pin.len
    && if d.mode == AbsentIdentity then address == pin.base
       else d.apertureBase <= address && address + pin.len <= d.apertureBase + d.apertureLen
  }

  predicate Placed(s: State, slot: int)
    requires slot in s.segments
  {
    && slot in s.mappings && s.mappings[slot].domain in s.domains
    && |s.segments[slot]| == 1
    && FitsAt(s.domains[s.mappings[slot].domain], s.mappings[slot], s.segments[slot][0].deviceAddress, s.segments[slot][0].len)
  }

  ghost predicate AllPlaced(s: State) {
    forall slot :: slot in s.segments ==> Placed(s, slot)
  }

  // Without an IOMMU only the buffer's own address; with one, the capability of this very
  // domain with the map bit, and an address range inside the aperture.
  predicate DomainAdmits(d: Domain, m: Mapping, c: Option<Cap.Capability>, address: int) {
    if d.mode == AbsentIdentity then c.None? && address == m.base
    else
      && c.Some? && c.value.kind == Cap.IommuDomain && Bit(c.value.rights, 3) && c.value.slot == d.id
      && d.apertureBase <= address && address + m.len <= d.apertureBase + d.apertureLen
      && d.apertureBase + d.apertureLen < 0x1_0000_0000_0000_0000
  }

  lemma CheckExactly(d: Domain, m: Mapping, c: Option<Cap.Capability>, address: int)
    ensures CheckDomain(d, m, c, address).Ok? <==> DomainAdmits(d, m, c, address)
  {
    assert Pow2(3) == 8;
    if c.Some? { ContainsOne(c.value.rights, 3); }
    hide Contains, Bit, Pow2;
  }

  /** A handle validates for a device and a domain exactly when it names the live pin of its
      slot and both the pin and the handle are of that device and domain. */
  lemma ValidatesExactly(s: State, slot: int, m: Mapping, device: int, domain: int)
    ensures Validate(s, slot, m, device, domain).Ok? <==>
      && slot in s.mappings && s.mappings[slot].generation == m.generation
      && s.mappings[slot].device == device == m.device && s.mappings[slot].domain == domain == m.domain
  {
  }

  /** A pin is accepted exactly for a region capability of a fitting kind with the read and
      write bits, a non-empty range inside it and a free slot. */
  lemma PinnedExactly(s: State, region: Cap.Capability, q: Request)
    ensures Pin(s, region, q).1.Ok? <==> Pinnable(s, region, q)
  {
    assert Pow2(0) == 1 && Pow2(1) == 2;
    ContainsTwo(region.rights, 0, 1);
    hide Contains, Bit, Pow2, Or;
  }

  predicate Pinnable(s: State, region: Cap.Capability, q: Request) {
    && region.kind in {Cap.Dma, Cap.Frame, Cap.PhysRegion} && Bit(region.rights, 0) && Bit(region.rights, 1)
    && q.len != 0 && region.base <= q.base && q.base + q.len <= region.base + region.len
    && region.base + region.len < 0x1_0000_0000_0000_0000
    && q.slot !in s.mappings
  }

  // The guards of an accepted mapping, all read off the caller's handle.
  predicate Accepts(s: State, slot: int, m: Mapping, c: Option<Cap.Capability>, address: int) {
    && slot in s.mappings && s.mappings[slot].generation == m.generation && slot !in s.segments
    && m.domain in s.domains && s.domains[m.domain].device == m.device
    && DomainAdmits(s.domains[m.domain], m, c, address)
  }

  // What the caller must respect: an accepted mapping fits the live pin, and a domain
  // that is registered again still fits every buffer mapped in it.
  ghost predicate Tidy(s: State, op: Op) {
    match op
    case MapBuffer(slot, m, c, address) =>
      Accepts(s, slot, m, c, address) ==>
        && s.mappings[slot].domain in s.domains
        && FitsAt(s.domains[s.mappings[slot].domain], s.mappings[slot], address, m.len)
    case AddDomain(d) =>
      d.apertureLen != 0 && d.apertureBase + d.apertureLen < U64_LIMIT ==> RefitsAll(s, d)
    case _ => true
  }

  ghost predicate RefitsAll(s: State, d: Domain) {
    forall slot :: slot in s.segments && slot in s.mappings && s.mappings[slot].domain == d.id && |s.segments[slot]| == 1 ==>
      FitsAt(d, s.mappings[slot], s.segments[slot][0].deviceAddress, s.segments[slot][0].len)
  }

  lemma MapPlacedExactly(s: State, slot: int, m: Mapping, c: Option<Cap.Capability>, address: int)
    requires Inv(s) && AllPlaced(s)
    ensures AllPlaced(MapDomain(s, slot, m, c, address).0) <==> Tidy(s, MapBuffer(slot, m, c, address))
  {
    if m.domain in s.domains { CheckExactly(s.domains[m.domain], m, c, address); }
    hide CheckDomain, DomainAdmits, FitsAt;
    var s' := MapDomain(s, slot, m, c, address).0;
    if Accepts(s, slot, m, c, address) {
      assert forall x :: x in s.segments ==> Placed(s, x) && Placed(s', x);
      assert slot in s'.segments && s'.segments[slot] == [Segment(address, m.len)];
    }
  }

  lemma AddPlacedExactly(s: State, d: Domain)
    requires Inv(s) && AllPlaced(s)
    ensures AllPlaced(RegisterDomain(s, d).0) <==> Tidy(s, AddDomain(d))
  {
    hide FitsAt;
    var s' := RegisterDomain(s, d).0;
    if d.apertureLen != 0 && d.apertureBase + d.apertureLen < U64_LIMIT {
      forall slot | slot in s.segments
        ensures Placed(s', slot) <==> (s.mappings[slot].domain == d.id ==>
          FitsAt(d, s.mappings[slot], s.segments[slot][0].deviceAddress, s.segments[slot][0].len))
      {
        assert Placed(s, slot);
      }
    }
  }

  /** An operation keeps every segment placed if and only if it is tidy. */
  lemma PlacedExactly(s: State, op: Op)
    requires Inv(s) && AllPlaced(s)
    ensures AllPlaced(Step(s, op)) <==> Tidy(s, op)
  {
    match op {
      case MapBuffer(slot, m, c, a) => MapPlacedExactly(s, slot, m, c, a);
      case AddDomain(d) => AddPlacedExactly(s, d);
      case _ => OthersStayPlaced(s, op);
    }
  }

  lemma OthersStayPlaced(s: State, op: Op)
    requires Inv(s) && AllPlaced(s) && !op.MapBuffer? && !op.AddDomain?
    ensures AllPlaced(Step(s, op))
  {
    hide Contains, Or;
    var s' := Step(s, op);
    forall slot | slot in s'.segments
      ensures Placed(s', slot)
    {
      assert Placed(s, slot);
    }
  }

  ghost predicate TidyRun(s: State, ops: seq<Op>)
    decreases |ops|
  {
    ops != [] ==> Tidy(s, ops[0]) && TidyRun(Step(s, ops[0]), ops[1..])
  }

  /** Over every tidy run every segment has the pinned length and lies in its device's
      aperture, or is the buffer's own address. */
  lemma {:induction false} SegmentsPlaced(s: State, ops: seq<Op>)
    requires Inv(s) && AllPlaced(s) && TidyRun(s, ops)
    ensures AllPlaced(Run(s, ops))
    decreases |ops|
  {
    hide Inv, AllPlaced, Step, Tidy;
    if ops != [] {
      StepKeeps(s, ops[0]);
      PlacedExactly(s, ops[0]);
      SegmentsPlaced(Step(s, ops[0]), ops[1..]);
    }
  }

  // A handle as an operation returned it, perhaps before a change of owner.
  predicate Unaltered(s: State, slot: int, m: Mapping) {
    slot in s.mappings && s.mappings[slot].generation == m.generation ==> m == s.mappings[slot].(ownership := m.ownership)
  }

  // The caller follows the protocol: handles unaltered, each domain registered once.
  predicate Honest(s: State, op: Op) {
    match op
    case MapBuffer(slot, m, _, _) => Unaltered(s, slot, m)
    case AddDomain(d) => d.id !in s.domains
    case _ => true
  }

  /** A caller that passes handles on unaltered and registers each domain once is tidy. */
  lemma HonestIsTidy(s: State, op: Op)
    requires Inv(s) && AllPlaced(s) && Honest(s, op)
    ensures Tidy(s, op)
  {
    hide Contains;
    if op.AddDomain? {
      forall slot | slot in s.segments
        ensures s.mappings[slot].domain != op.domain.id
      {
        assert Placed(s, slot);
      }
    }
  }

  // ---------------------------------------------------------------------
  // Two runs that misplace a segment

  lemma RunSnoc(s: State, ops: seq<Op>, op: Op)
    ensures Run(s, ops + [op]) == Step(Run(s, ops), op)
    decreases |ops|
  {
    hide Step;
    if ops == [] {
      assert [op][1..] == [] && ops + [op] == [op];
    } else {
      RunSnoc(Step(s, ops[0]), ops[1..], op);
      assert (ops + [op])[0] == ops[0] && (ops + [op])[1..] == ops[1..] + [op];
    }
  }

  const Page := Cap.Capability(Cap.Dma, 0, 0, 3, 0, 0x1000, 0x1000)
  const PinPage := PinBuffer(Page, Request(0, 1, 2, 0x1000, 0x1000, ToDevice))
  const PagePin := Mapping(1, 2, 0x1000, 0x1000, ToDevice, 0, Cpu)
  const NoIommu := Domain(2, 1, 0, 0x1000, AbsentIdentity)
  const MapLonger := MapBuffer(0, PagePin.(len := 0x2000), None, 0x1000)

  lemma BothRights()
    ensures Contains(3, Or(Cap.READ, Cap.WRITE))
  {
    assert Or(1, 2) == 3;
    assert And(3, 3) == 3;
  }

  lemma PinPageStep(s: State)
    requires s.mappings == map[] && s.generations == map[]
    ensures Step(s, PinPage) == s.(mappings := map[0 := PagePin])
  {
    BothRights();
    hide Contains, Or;
    assert s.mappings[0 := PagePin] == map[0 := PagePin];
  }

  /** A pin of one page, mapped with a handle whose length was altered: the segment is
      longer than the pin. */
  lemma AlteredHandleMisplaces(ops: seq<Op>)
    requires ops == [AddDomain(NoIommu)] + [PinPage]
    ensures AllPlaced(Run(Fresh, ops)) && !Tidy(Run(Fresh, ops), MapLonger)
    ensures Run(Fresh, ops + [MapLonger]).segments == map[0 := [Segment(0x1000, 0x2000)]]
    ensures !AllPlaced(Run(Fresh, ops + [MapLonger]))
  {
    var none: seq<Op> := [];
    assert none + [AddDomain(NoIommu)] == [AddDomain(NoIommu)];
    RunSnoc(Fresh, none, AddDomain(NoIommu));
    var s1 := Fresh.(domains := map[2 := NoIommu]);
    assert Step(Fresh, AddDomain(NoIommu)) == s1;
    PinPageStep(s1);
    hide Step;
    RunSnoc(Fresh, [AddDomain(NoIommu)], PinPage);
    var s2 := s1.(mappings := map[0 := PagePin]);
    RunSnoc(Fresh, ops, MapLonger);
    AlteredStep(s2);
  }

  lemma AlteredStep(s: State)
    requires s == State(map[0 := PagePin], map[], map[2 := NoIommu], map[])
    ensures AllPlaced(s) && !Tidy(s, MapLonger)
    ensures Step(s, MapLonger).segments == map[0 := [Segment(0x1000, 0x2000)]] && !AllPlaced(Step(s, MapLonger))
  {
    hide Contains;
    var s' := Step(s, MapLonger);
    assert 0 in s'.segments && !Placed(s', 0);
  }

  const Wide := Domain(2, 1, 0, 0x1_0000, Present)
  const Moved := Domain(2, 1, 0x8000, 0x1000, Present)
  const DomainHandle := Cap.Capability(Cap.IommuDomain, 2, 0, 8, 0, 0, 0)
  const MapPage := MapBuffer(0, PagePin, Some(DomainHandle), 0x4000)

  lemma MapRight()
    ensures Contains(8, Cap.MAP)
  {
    assert And(8, 8) == 8;
  }

  lemma MapPageStep(s: State)
    requires s == State(map[0 := PagePin], map[], map[2 := Wide], map[])
    ensures Step(s, MapPage) == s.(segments := map[0 := [Segment(0x4000, 0x1000)]])
  {
    MapRight();
    hide Contains;
    assert s.segments[0 := [Segment(0x4000, 0x1000)]] == map[0 := [Segment(0x4000, 0x1000)]];
  }

  /** A domain registered a second time is refused as a duplicate but replaces the aperture
      under a mapped buffer. */
  lemma ReregisteredDomainMisplaces(ops: seq<Op>)
    requires ops == [AddDomain(Wide)] + [PinPage] + [MapPage]
    ensures AllPlaced(Run(Fresh, ops)) && RegisterDomain(Run(Fresh, ops), Moved).1 == Err(DuplicateDomain)
    ensures !AllPlaced(Run(Fresh, ops + [AddDomain(Moved)]))
  {
    var none: seq<Op> := [];
    assert none + [AddDomain(Wide)] == [AddDomain(Wide)];
    RunSnoc(Fresh, none, AddDomain(Wide));
    var s1 := Fresh.(domains := map[2 := Wide]);
    assert Step(Fresh, AddDomain(Wide)) == s1;
    PinPageStep(s1);
    var s2 := s1.(mappings := map[0 := PagePin]);
    MapPageStep(s2);
    hide Step;
    RunSnoc(Fresh, [AddDomain(Wide)], PinPage);
    RunSnoc(Fresh, [AddDomain(Wide)] + [PinPage], MapPage);
    RunSnoc(Fresh, ops, AddDomain(Moved));
    ReregisteredStep(s2.(segments := map[0 := [Segment(0x4000, 0x1000)]]));
  }

  lemma ReregisteredStep(s: State)
    requires s == State(map[0 := PagePin], map[], map[2 := Wide], map[0 := [Segment(0x4000, 0x1000)]])
    ensures AllPlaced(s) && RegisterDomain(s, Moved).1 == Err(DuplicateDomain)
    ensures !AllPlaced(Step(s, AddDomain(Moved)))
  {
    assert Placed(s, 0);
    var s' := Step(s, AddDomain(Moved));
    assert 0 in s'.segments && !Placed(s', 0);
  }

  // ---------------------------------------------------------------------
  // The state as an object

  // The handle names the live pin of the slot.
  predicate Current(s: State, slot: int, m: Mapping) {
    slot in s.mappings && s.mappings[slot].generation == m.generation
  }

  lemma PlacesExactly(s: State, op: Op)
    requires Inv(s)
    ensures AllPlaced(s) ==> (AllPlaced(Step(s, op)) <==> Tidy(s, op))
  {
    if AllPlaced(s) { PlacedExactly(s, op); }
  }

  // Whoever owns a buffer, its segments stay where they are.
  lemma OwnershipKeeps(s: State, slot: int, m: Mapping, expected: Ownership, next: Ownership)
    requires Inv(s)
    ensures var t := Sync(s, slot, m, expected, next).0; Inv(t) && (AllPlaced(s) ==> AllPlaced(t))
  {
    var t := Sync(s, slot, m, expected, next).0;
    if AllPlaced(s) {
      forall other | other in t.segments
        ensures Placed(t, other)
      {
        assert Placed(s, other);
      }
    }
  }

  class DmaState {
    var mappings: map<int, Mapping>
    var generations: map<int, int>
    var domains: map<int, Domain>
    var segments: map<int, seq<Segment>>

    ghost function View(): State
      reads this
    {
      State(mappings, generations, domains, segments)
    }

    ghost predicate Valid()
      reads this
    {
      Inv(View())
    }

    constructor ()
      ensures Valid() && AllPlaced(View()) && View() == Fresh
    {
      mappings, generations, domains, segments := map[], map[], map[], map[];
    }

    method PinBuffer(region: Cap.Capability, q: Request) returns (r: Result<Mapping, Error>)
      requires Valid()
      modifies this
      ensures Valid() && (View(), r) == Pin(old(View()), region, q)
      ensures r.Ok? <==> Pinnable(old(View()), region, q)
      ensures r.Ok? ==> r.value == Mapping(q.device, q.domain, q.base, q.len, q.direction, Counter(old(View()), q.slot), Cpu)
      ensures r.Err? ==> View() == old(View())
      ensures r.Ok? ==> mappings == old(mappings)[q.slot := r.value] && Current(View(), q.slot, r.value) && r.value.ownership == Cpu
      ensures old(AllPlaced(View())) ==> AllPlaced(View())
    {
      StepKeeps(View(), Op.PinBuffer(region, q));
      PlacesExactly(View(), Op.PinBuffer(region, q));
      PinnedExactly(View(), region, q);
      hide Inv, AllPlaced;
      if region.kind != Cap.Dma && region.kind != Cap.Frame && region.kind != Cap.PhysRegion { return Err(WrongCapability); }
      if !Contains(region.rights, Or(Cap.READ, Cap.WRITE)) { return Err(MissingRights); }
      if q.len == 0 { return Err(ZeroLength); }
      if !Cap.ContainsRange(region, q.base, q.len) { return Err(OutOfRange); }
      if q.slot in mappings { return Err(DuplicateMapping); }
      var generation := if q.slot in generations then generations[q.slot] else 0;
      var mapping := Mapping(q.device, q.domain, q.base, q.len, q.direction, generation, Cpu);
      mappings := mappings[q.slot := mapping];
      r := Ok(mapping);
    }

    method AddDomain(d: Domain) returns (r: Result<(), Error>)
      requires Valid()
      modifies this
      ensures Valid() && (View(), r) == RegisterDomain(old(View()), d)
      ensures r.Ok? <==> d.apertureLen != 0 && d.apertureBase + d.apertureLen < U64_LIMIT && d.id !in old(domains)
      ensures r == Err(SegmentOverflow) ==> View() == old(View())
      ensures r != Err(SegmentOverflow) ==> domains == old(domains)[d.id := d]
      ensures old(AllPlaced(View())) ==> (AllPlaced(View()) <==> Tidy(old(View()), Op.AddDomain(d)))
    {
      StepKeeps(View(), Op.AddDomain(d));
      PlacesExactly(View(), Op.AddDomain(d));
      hide Inv, AllPlaced, Tidy;
      if d.apertureLen == 0 || d.apertureBase + d.apertureLen >= U64_LIMIT { return Err(SegmentOverflow); }
      var known := d.id in domains;
      domains := domains[d.id := d];
      r := if known then Err(DuplicateDomain) else Ok(());
    }

    method MapBuffer(slot: int, m: Mapping, c: Option<Cap.Capability>, address: int) returns (r: Result<seq<Segment>, Error>)
      requires Valid()
      modifies this
      ensures Valid() && (View(), r) == MapDomain(old(View()), slot, m, c, address)
      ensures r.Ok? <==> Accepts(old(View()), slot, m, c, address)
      ensures r.Ok? ==> r.value == [Segment(address, m.len)] && segments == old(segments)[slot := r.value]
      ensures r.Err? ==> View() == old(View())
      ensures old(AllPlaced(View())) ==> (AllPlaced(View()) <==> Tidy(old(View()), Op.MapBuffer(slot, m, c, address)))
    {
      StepKeeps(View(), Op.MapBuffer(slot, m, c, address));
      PlacesExactly(View(), Op.MapBuffer(slot, m, c, address));
      hide Inv, AllPlaced, Tidy;
      if m.domain in domains { CheckExactly(domains[m.domain], m, c, address); }
      hide CheckDomain, DomainAdmits;
      if slot !in mappings { return Err(UnknownMapping); }
      if mappings[slot].generation != m.generation { return Err(StaleGeneration); }
      if slot in segments { return Err(AlreadyMapped); }
      if m.domain !in domains { return Err(UnknownDomain); }
      var d := domains[m.domain];
      if d.device != m.device { return Err(ForeignDevice); }
      var checked := CheckDomain(d, m, c, address);
      if checked.Err? { return Err(checked.error); }
      var segs := [Segment(address, m.len)];
      segments := segments[slot := segs];
      r := Ok(segs);
    }

    method UnmapBuffer(slot: int, m: Mapping) returns (r: Result<seq<Segment>, Error>)
      requires Valid()
      modifies this
      ensures Valid() && (View(), r) == UnmapDomain(old(View()), slot, m)
      ensures r.Ok? <==> Current(old(View()), slot, m) && old(mappings)[slot].ownership == Cpu && slot in old(segments)
      ensures r.Err? ==> View() == old(View())
      ensures r.Ok? ==> r.value == old(segments)[slot] && segments == old(segments) - {slot}
      ensures old(AllPlaced(View())) ==> AllPlaced(View())
    {
      StepKeeps(View(), Op.UnmapBuffer(slot, m));
      PlacesExactly(View(), Op.UnmapBuffer(slot, m));
      hide Inv, AllPlaced;
      if slot !in mappings { return Err(UnknownMapping); }
      if mappings[slot].generation != m.generation { return Err(StaleGeneration); }
      if mappings[slot].ownership != Cpu { return Err(WrongOwnership); }
      if slot !in segments { return Err(NotMapped); }
      r := Ok(segments[slot]);
      segments := segments - {slot};
    }

    method UnpinBuffer(slot: int, m: Mapping) returns (r: Result<(), Error>)
      requires Valid()
      modifies this
      ensures Valid() && (View(), r) == Unpin(old(View()), slot, m)
      ensures r.Ok? <==> && Current(old(View()), slot, m) && old(mappings)[slot].ownership == Cpu && slot !in old(segments)
                         && m.generation + 1 < U64_LIMIT
      ensures r.Err? ==> View() == old(View())
      ensures r.Ok? ==> slot !in mappings && m.generation < Counter(View(), slot)
      ensures old(AllPlaced(View())) ==> AllPlaced(View())
    {
      StepKeeps(View(), Op.UnpinBuffer(slot, m));
      PlacesExactly(View(), Op.UnpinBuffer(slot, m));
      hide Inv, AllPlaced;
      if slot !in mappings { return Err(UnknownMapping); }
      if mappings[slot].generation != m.generation { return Err(StaleGeneration); }
      if mappings[slot].ownership != Cpu { return Err(WrongOwnership); }
      if slot in segments { return Err(AlreadyMapped); }
      var next := mappings[slot].generation + 1;
      if next >= U64_LIMIT { return Err(GenerationOverflow); }
      mappings := mappings - {slot};
      generations := generations[slot := next];
      r := Ok(());
    }

    method TransitionOwnership(slot: int, m: Mapping, expected: Ownership, next: Ownership) returns (r: Result<Mapping, Error>)
      requires Valid()
      modifies this
      ensures Valid() && (View(), r) == Sync(old(View()), slot, m, expected, next)
      ensures r.Ok? <==> Current(old(View()), slot, m) && old(mappings)[slot].ownership == expected == m.ownership
      ensures r.Err? ==> View() == old(View())
      ensures r.Ok? ==> mappings == old(mappings)[slot := r.value] && r.value == old(mappings)[slot].(ownership := next)
      ensures old(AllPlaced(View())) ==> AllPlaced(View())
    {
      OwnershipKeeps(View(), slot, m, expected, next);
      hide Inv, AllPlaced;
      if slot !in mappings { return Err(UnknownMapping); }
      if mappings[slot].generation != m.generation { return Err(StaleGeneration); }
      if mappings[slot].ownership != expected || m.ownership != expected { return Err(WrongOwnership); }
      mappings := mappings[slot := mappings[slot].(ownership := next)];
      r := Ok(mappings[slot]);
    }
  }
}

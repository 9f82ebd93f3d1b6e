/** Address spaces: a map of page ranges, and the partial function on addresses that
    it stands for. */
module AddressSpaces {
  import opened Wrappers
  import opened Machine
  import opened Bits
  import Cap = Capabilities

  datatype PageSize = Size4K | Size2M | Size1G

  function Bytes(size: PageSize): (n: int)
    ensures n in {0x1000, 0x20_0000, 0x4000_0000}
  {
    match size
    case Size4K => 0x1000
    case Size2M => 0x20_0000
    case Size1G => 0x4000_0000
  }

  datatype Mapping = Mapping(
    virtualBase: int, physicalBase: int, pageSize: PageSize, pages: int, permissions: nat, epoch: int)

  datatype MapError =
    | WrongAddressSpaceCapability | WrongFrameCapability | MissingRights | NonCanonical | Misaligned
    | RangeOverflow | OutOfRange | Overlap | NotMapped | EpochOverflow | EmptyPermissions | Active
    | Destroyed | UserFault

  type Mappings = map<int, Mapping>

  datatype Space = Space(mappings: Mappings, epoch: int, activeCpus: set<int>, destroyed: bool)

  const Fresh := Space(map[], 0, {}, false)

  predicate Canonical(a: int) {
    var upper, sign := a / 0x1_0000_0000_0000, a / 0x8000_0000_0000 % 2;
    (sign == 0 && upper == 0) || (sign == 1 && upper == 0xffff)
  }

  // The low and the high half of the address space.
  lemma CanonicalExactly(a: int)
    ensures Canonical(a) <==> 0 <= a < 0x8000_0000_0000 || 0xffff_8000_0000_0000 <= a < 0x1_0000_0000_0000_0000
  {
  }

  // Each page size is 512 of the next smaller.
  lemma PageSizes()
    ensures Bytes(Size4K) == 4096 && Bytes(Size2M) == 512 * Bytes(Size4K) && Bytes(Size1G) == 512 * Bytes(Size2M)
  {
  }

  function Size(m: Mapping): int {
    Bytes(m.pageSize) * m.pages
  }

  // ---------------------------------------------------------------------
  // The operations

  // The saturating comparison of the overlap test.
  predicate Touches(m: Mapping, base: int, end: int) {
    base < Saturate(m.virtualBase + Saturate(Size(m))) && m.virtualBase < end
  }

  // The guards of `map` on its arguments: the end of the range, or the first that fails.
  function Admitted(space: Cap.Capability, frames: Cap.Capability, base: int, size: PageSize, pages: int, permissions: nat)
    : Result<int, MapError>
  {
    if space.kind != Cap.AddressSpace then Err(WrongAddressSpaceCapability)
    else if frames.kind != Cap.Frame && frames.kind != Cap.PhysRegion then Err(WrongFrameCapability)
    else if !Contains(space.rights, Cap.MAP) || !Contains(frames.rights, Cap.READ) then Err(MissingRights)
    else if !Canonical(base) then Err(NonCanonical)
    else if pages == 0 || permissions == 0 then Err(EmptyPermissions)
    else if Bytes(size) * pages >= U64_LIMIT then Err(RangeOverflow)
    else if base % Bytes(size) != 0 || frames.base % Bytes(size) != 0 then Err(Misaligned)
    else if !Cap.ContainsRange(frames, frames.base, Bytes(size) * pages) then Err(OutOfRange)
    else if base + Bytes(size) * pages >= U64_LIMIT then Err(RangeOverflow)
    else Ok(base + Bytes(size) * pages)
  }

  function Map(s: Space, space: Cap.Capability, frames: Cap.Capability, base: int, size: PageSize, pages: int, permissions: nat)
    : (Space, Result<Mapping, MapError>)
  {
    if s.destroyed then (s, Err(Destroyed))
    else
      match Admitted(space, frames, base, size, pages, permissions)
      case Err(e) => (s, Err(e))
      case Ok(end) =>
        if exists b :: b in s.mappings && Touches(s.mappings[b], base, end) then (s, Err(Overlap))
        else if s.epoch + 1 >= U64_LIMIT then (s, Err(EpochOverflow))
        else
          var m := Mapping(base, frames.base, size, pages, permissions, s.epoch + 1);
          (s.(epoch := s.epoch + 1, mappings := s.mappings[base := m]), Ok(m))
  }

  function Unmap(s: Space, base: int): (Space, Result<Mapping, MapError>) {
    if s.destroyed then (s, Err(Destroyed))
    else if base !in s.mappings then (s, Err(NotMapped))
    else
      var t := s.(mappings := s.mappings - {base});
      if t.epoch + 1 >= U64_LIMIT then (t, Err(EpochOverflow))
      else (t.(epoch := t.epoch + 1), Ok(s.mappings[base]))
  }

  function Protect(s: Space, space: Cap.Capability, base: int, permissions: nat): (Space, Result<Mapping, MapError>) {
    if s.destroyed then (s, Err(Destroyed))
    else if space.kind != Cap.AddressSpace then (s, Err(WrongAddressSpaceCapability))
    else if !Contains(space.rights, Cap.MAP) then (s, Err(MissingRights))
    else if permissions == 0 then (s, Err(EmptyPermissions))
    else if s.epoch + 1 >= U64_LIMIT then (s, Err(EpochOverflow))
    else
      var t := s.(epoch := s.epoch + 1);
      if base !in t.mappings then (t, Err(NotMapped))
      else
        var m := t.mappings[base].(permissions := permissions, epoch := t.epoch);
        (t.(mappings := t.mappings[base := m]), Ok(m))
  }

  function RequireSpace(space: Cap.Capability): Result<(), MapError> {
    if space.kind != Cap.AddressSpace then Err(WrongAddressSpaceCapability)
    else if !Contains(space.rights, Cap.MAP) then Err(MissingRights)
    else Ok(())
  }

  function Activate(s: Space, space: Cap.Capability, cpu: int): (Space, Result<(), MapError>) {
    if RequireSpace(space).Err? then (s, RequireSpace(space))
    else if s.destroyed then (s, Err(Destroyed))
    else (s.(activeCpus := s.activeCpus + {cpu}), Ok(()))
  }

  function Deactivate(s: Space, space: Cap.Capability, cpu: int): (Space, Result<(), MapError>) {
    if RequireSpace(space).Err? then (s, RequireSpace(space))
    else if cpu !in s.activeCpus then (s, Err(NotMapped))
    else (s.(activeCpus := s.activeCpus - {cpu}), Ok(()))
  }

  function Destroy(s: Space, space: Cap.Capability): (Space, Result<(), MapError>) {
    if RequireSpace(space).Err? then (s, RequireSpace(space))
    else if s.activeCpus != {} || s.mappings != map[] then (s, Err(Active))
    else (s.(destroyed := true), Ok(()))
  }

  // The search of `translate`, over the mappings in a given order.
  function TranslateIn(ms: Mappings, order: seq<int>, a: int): Result<(int, nat), MapError>
    requires forall i :: 0 <= i < |order| ==> order[i] in ms
  {
    if order == [] then Err(NotMapped)
    else
      var m := ms[order[0]];
      if Size(m) >= U64_LIMIT then Err(RangeOverflow)
      else if m.virtualBase + Size(m) >= U64_LIMIT then Err(RangeOverflow)
      else if m.virtualBase <= a < m.virtualBase + Size(m) then
        Ok((m.physicalBase + (a - m.virtualBase), m.permissions))
      else TranslateIn(ms, order[1..], a)
  }

  // ---------------------------------------------------------------------
  // What a space means

  predicate Covers(m: Mapping, a: int) {
    m.virtualBase <= a < m.virtualBase + Size(m)
  }

  predicate GoodMapping(base: int, m: Mapping) {
    && m.virtualBase == base && base >= 0 && m.physicalBase >= 0 && m.pages > 0 && Canonical(base)
    && base + Size(m) < U64_LIMIT && m.physicalBase + Size(m) < U64_LIMIT
    && base % Bytes(m.pageSize) == 0 && m.physicalBase % Bytes(m.pageSize) == 0
  }

  // Well-formed and pairwise disjoint.
  ghost predicate Inv(s: Space) {
    && (forall b :: b in s.mappings ==> GoodMapping(b, s.mappings[b]))
    && (forall b, c, a :: b in s.mappings && c in s.mappings && Covers(s.mappings[b], a) && Covers(s.mappings[c], a) ==> b == c)
    && (s.destroyed ==> s.mappings == map[])
  }

  // The partial function: physical address and permissions.
  ghost function Meaning(ms: Mappings, a: int): Option<(int, nat)> {
    if exists b :: b in ms && Covers(ms[b], a) then
      var b :| b in ms && Covers(ms[b], a);
      Some((ms[b].physicalBase + (a - ms[b].virtualBase), ms[b].permissions))
    else None
  }

  lemma MeaningAt(s: Space, b: int, a: int)
    requires Inv(s) && b in s.mappings && Covers(s.mappings[b], a)
    ensures Meaning(s.mappings, a) == Some((s.mappings[b].physicalBase + (a - b), s.mappings[b].permissions))
  {
  }

  // `translate`, as the partial function tells it.
  ghost function Translate(s: Space, a: int): Result<(int, nat), MapError> {
    if s.destroyed then Err(Destroyed)
    else if !Canonical(a) then Err(NonCanonical)
    else match Meaning(s.mappings, a)
      case None => Err(NotMapped)
      case Some(pp) => Ok(pp)
  }

  /** The search finds what the partial function says in every order that lists all
      mappings, and never overflows. */
  lemma {:induction false} AnyOrder(s: Space, order: seq<int>, a: int)
    requires Inv(s) && forall i :: 0 <= i < |order| ==> order[i] in s.mappings
    requires forall b :: b in s.mappings && Covers(s.mappings[b], a) ==> b in order
    ensures TranslateIn(s.mappings, order, a) ==
      match Meaning(s.mappings, a) case None => Err(NotMapped) case Some(pp) => Ok(pp)
  {
    hide Canonical;
    if order != [] {
      var b := order[0];
      assert GoodMapping(b, s.mappings[b]);
      if Covers(s.mappings[b], a) {
        MeaningAt(s, b, a);
      } else {
        forall c | c in s.mappings && Covers(s.mappings[c], a)
          ensures c in order[1..]
        {
          assert c in order && c != b;
          assert order == [b] + order[1..];
        }
        AnyOrder(s, order[1..], a);
      }
    }
  }

  /** Physical and virtual address agree below the page size, and the result is an address. */
  lemma SameOffset(s: Space, b: int, a: int)
    requires Inv(s) && b in s.mappings && Covers(s.mappings[b], a)
    ensures var p := Meaning(s.mappings, a).value.0; var n := Bytes(s.mappings[b].pageSize);
      Meaning(s.mappings, a).Some? && 0 <= p < U64_LIMIT && p % n == a % n
  {
    hide Canonical;
    MeaningAt(s, b, a);
    var m := s.mappings[b];
    assert GoodMapping(b, m);
    Congruent(m.physicalBase, b, a, Bytes(m.pageSize));
  }

  lemma Congruent(p: int, b: int, a: int, n: int)
    requires n > 0 && p % n == 0 && b % n == 0 && a >= b >= 0 && p >= 0
    ensures (p + (a - b)) % n == a % n
  {
    var i, j, q, r := p / n, b / n, a / n, a % n;
    Spread(i, q, j, n);
    if q < j { NextMultiple(q, j, n); }
    DivModUnique(p + (a - b), n, i + q - j, r);
  }

  lemma Spread(i: int, q: int, j: int, n: int)
    ensures (i + q - j) * n == i * n + q * n - j * n
  {
  }

  lemma NextMultiple(q: int, j: int, n: int)
    requires n > 0 && q < j
    ensures q * n + n <= j * n
  {
    Spread(j, 0, q, n);
    AtLeastOnce(j - q, n);
  }

  lemma AtLeastOnce(k: int, n: int)
    requires n > 0 && k >= 1
    ensures k * n >= n
  {
  }

  // ---------------------------------------------------------------------
  // What each operation does to the meaning

  lemma TouchesIsOverlap(s: Space, b: int, base: int, end: int)
    requires Inv(s) && b in s.mappings && 0 <= base < end < U64_LIMIT
    ensures Touches(s.mappings[b], base, end) <==> exists a :: base <= a < end && Covers(s.mappings[b], a)
  {
    hide Canonical;
    var m := s.mappings[b];
    assert GoodMapping(b, m) && Size(m) >= 0;
    if Touches(m, base, end) {
      var a := if base < m.virtualBase then m.virtualBase else base;
      assert base <= a < end && Covers(m, a);
    }
  }

  // A mapping is refused as overlapping exactly when some address of it is already mapped.
  lemma OverlapExactly(s: Space, base: int, end: int)
    requires Inv(s) && 0 <= base < end < U64_LIMIT
    ensures (exists b :: b in s.mappings && Touches(s.mappings[b], base, end))
      <==> exists a :: base <= a < end && Meaning(s.mappings, a).Some?
  {
    hide Touches, Covers;
    if exists b :: b in s.mappings && Touches(s.mappings[b], base, end) {
      var b :| b in s.mappings && Touches(s.mappings[b], base, end);
      TouchesIsOverlap(s, b, base, end);
      var a :| base <= a < end && Covers(s.mappings[b], a);
      assert Meaning(s.mappings, a).Some?;
    }
    if exists a :: base <= a < end && Meaning(s.mappings, a).Some? {
      var a :| base <= a < end && Meaning(s.mappings, a).Some?;
      var b :| b in s.mappings && Covers(s.mappings[b], a);
      TouchesIsOverlap(s, b, base, end);
    }
  }

  // A capability as the ledger issues it: unsigned base and length.
  predicate Unsigned(c: Cap.Capability) {
    c.base >= 0 && c.len >= 0
  }

  // The meaning after one range is given a new mapping, or none.
  ghost predicate Updated(ms: Mappings, ms': Mappings, base: int, end: int, to: Option<(int, nat)>) {
    forall a :: Meaning(ms', a) ==
      if !(base <= a < end) then Meaning(ms, a)
      else match to case None => None case Some(pp) => Some((pp.0 + (a - base), pp.1))
  }

  lemma OtherMappings(s: Space, ms': Mappings, base: int, a: int)
    requires Inv(s) && (forall b :: b != base ==> (b in ms' <==> b in s.mappings) && (b in ms' ==> ms'[b] == s.mappings[b]))
    requires base in ms' ==> !Covers(ms'[base], a)
    requires base in s.mappings ==> !Covers(s.mappings[base], a)
    ensures Meaning(ms', a) == Meaning(s.mappings, a)
  {
    hide Covers;
    if exists b :: b in s.mappings && Covers(s.mappings[b], a) {
      var b :| b in s.mappings && Covers(s.mappings[b], a);
      assert b in ms' && Covers(ms'[b], a);
      MeaningAt(s, b, a);
      var c :| c in ms' && Covers(ms'[c], a) && Meaning(ms', a)
        == Some((ms'[c].physicalBase + (a - ms'[c].virtualBase), ms'[c].permissions));
      assert c in s.mappings && Covers(s.mappings[c], a);
    }
  }

  lemma MapKeepsInv(s: Space, space: Cap.Capability, frames: Cap.Capability, base: int, size: PageSize, pages: int, permissions: nat)
    requires Inv(s) && Unsigned(frames) && base >= 0 && pages >= 0
    requires Map(s, space, frames, base, size, pages, permissions).1.Ok?
    ensures Inv(Map(s, space, frames, base, size, pages, permissions).0)
    ensures base !in s.mappings
  {
    hide Canonical, Contains;
    var s' := Map(s, space, frames, base, size, pages, permissions).0;
    var m := s'.mappings[base];
    var end := base + Size(m);
    assert GoodMapping(base, m);
    assert base in s.mappings ==> GoodMapping(base, s.mappings[base]) && Size(s.mappings[base]) > 0;
    forall b, a | b in s.mappings && Covers(s.mappings[b], a)
      ensures !Covers(m, a)
    {
      TouchesIsOverlap(s, b, base, end);
    }
  }

  /** `map` adds exactly one range. */
  lemma MapAdds(s: Space, space: Cap.Capability, frames: Cap.Capability, base: int, size: PageSize, pages: int, permissions: nat)
    requires Inv(s) && Unsigned(frames) && base >= 0 && pages >= 0
    ensures var (s', r) := Map(s, space, frames, base, size, pages, permissions);
      && Inv(s')
      && (r.Err? ==> s' == s)
      && (r.Ok? ==> Updated(s.mappings, s'.mappings, base, base + Bytes(size) * pages, Some((frames.base, permissions))))
      && (r.Ok? ==> forall a :: base <= a < base + Bytes(size) * pages ==> Meaning(s.mappings, a).None?)
  {
    var (s', r) := Map(s, space, frames, base, size, pages, permissions);
    if r.Ok? {
      MapKeepsInv(s, space, frames, base, size, pages, permissions);
      hide Canonical, Contains, Inv;
      var end := base + Bytes(size) * pages;
      forall a
        ensures Meaning(s'.mappings, a) ==
          if base <= a < end then Some((frames.base + (a - base), permissions)) else Meaning(s.mappings, a)
      {
        if base <= a < end { MeaningAt(s', base, a); } else { OtherMappings(s, s'.mappings, base, a); }
      }
      OverlapExactly(s, base, end) by { assert Inv(s); }
    }
  }

  // What `map` demands of its arguments, in bits and addresses.
  predicate Mappable(space: Cap.Capability, frames: Cap.Capability, base: int, size: PageSize, pages: int, permissions: nat) {
    var bytes := pages * Bytes(size);
    && space.kind == Cap.AddressSpace && Bit(space.rights, 3)
    && (frames.kind == Cap.Frame || frames.kind == Cap.PhysRegion) && Bit(frames.rights, 0)
    && pages != 0 && permissions != 0
    && (base < 0x8000_0000_0000 || 0xffff_8000_0000_0000 <= base < 0x1_0000_0000_0000_0000)
    && base % Bytes(size) == 0 && frames.base % Bytes(size) == 0
    && bytes <= frames.len && frames.base + frames.len < 0x1_0000_0000_0000_0000
    && base + bytes < 0x1_0000_0000_0000_0000
  }

  lemma AdmittedExactly(space: Cap.Capability, frames: Cap.Capability, base: int, size: PageSize, pages: int, permissions: nat)
    requires Unsigned(frames) && base >= 0 && pages >= 0
    ensures var r := Admitted(space, frames, base, size, pages, permissions);
      && (r.Ok? <==> Mappable(space, frames, base, size, pages, permissions))
      && (r.Ok? ==> r.value == base + pages * Bytes(size))
  {
    assert Pow2(0) == 1 && Pow2(3) == 8;
    ContainsOne(space.rights, 3);
    ContainsOne(frames.rights, 0);
    CanonicalExactly(base);
    hide Contains, Bit, Pow2, Canonical, Bytes;
  }

  /** `map` is accepted exactly when its arguments are mappable, the space is live with an
      epoch left and no address of the range is mapped; the frames it maps lie inside the
      frame capability. */
  lemma MapExactly(s: Space, space: Cap.Capability, frames: Cap.Capability, base: int, size: PageSize, pages: int, permissions: nat)
    requires Inv(s) && Unsigned(frames) && base >= 0 && pages >= 0
    ensures var (s', r) := Map(s, space, frames, base, size, pages, permissions);
      && (r.Ok? <==> && !s.destroyed && Mappable(space, frames, base, size, pages, permissions) && s.epoch + 1 < U64_LIMIT
                     && forall a :: base <= a < base + pages * Bytes(size) ==> Meaning(s.mappings, a).None?)
      && (r.Ok? ==> && r.value == Mapping(base, frames.base, size, pages, permissions, s.epoch + 1)
                    && s' == s.(epoch := s.epoch + 1, mappings := s.mappings[base := r.value])
                    && frames.base + pages * Bytes(size) <= frames.base + frames.len)
  {
    AdmittedExactly(space, frames, base, size, pages, permissions);
    var end := base + pages * Bytes(size);
    if Mappable(space, frames, base, size, pages, permissions) {
      Positive(pages, Bytes(size));
      OverlapExactly(s, base, end);
    }
    hide Inv, Admitted, Touches, Meaning, Bytes, Bit;
  }

  lemma Positive(x: int, y: int)
    requires x > 0 && y > 0
    ensures x * y > 0
  {
  }

  /** `unmap` removes exactly one range; it does so even when it then reports that the
      epoch is exhausted. */
  lemma UnmapRemoves(s: Space, base: int)
    requires Inv(s)
    ensures var (s', r) := Unmap(s, base);
      && Inv(s')
      && (r.Ok? || r == Err(EpochOverflow) <==> base in s.mappings && !s.destroyed)
      && (base in s.mappings ==> Updated(s.mappings, s'.mappings, base, base + Size(s.mappings[base]), None))
      && (base !in s.mappings ==> s' == s)
  {
    hide Canonical;
    var s' := Unmap(s, base).0;
    if base in s.mappings {
      var end := base + Size(s.mappings[base]);
      assert GoodMapping(base, s.mappings[base]);
      forall a
        ensures Meaning(s'.mappings, a) == if base <= a < end then None else Meaning(s.mappings, a)
      {
        if base <= a < end {
          assert Covers(s.mappings[base], a);
        } else {
          OtherMappings(s, s'.mappings, base, a);
        }
      }
    }
  }

  /** `protect` re-labels exactly one range; a refusal moves the epoch exactly when every
      other guard passes and the base is not mapped. */
  lemma ProtectRelabels(s: Space, space: Cap.Capability, base: int, permissions: nat)
    requires Inv(s)
    ensures var (s', r) := Protect(s, space, base, permissions);
      && Inv(s')
      && (r.Ok? ==> base in s.mappings && Updated(s.mappings, s'.mappings, base, base + Size(s.mappings[base]),
           Some((s.mappings[base].physicalBase, permissions))))
      && (r.Err? ==> s' == s.(epoch := s'.epoch))
      && (r.Err? && s' != s <==>
            && !s.destroyed && space.kind == Cap.AddressSpace && Contains(space.rights, Cap.MAP) && permissions != 0
            && s.epoch + 1 < U64_LIMIT && base !in s.mappings)
  {
    hide Canonical, Contains;
    var (s', r) := Protect(s, space, base, permissions);
    if r.Ok? {
      var end := base + Size(s.mappings[base]);
      assert GoodMapping(base, s.mappings[base]);
      assert Inv(s') by {
        assert forall b, a :: b in s'.mappings ==> (Covers(s'.mappings[b], a) <==> Covers(s.mappings[b], a));
      }
      forall a
        ensures Meaning(s'.mappings, a) ==
          if base <= a < end then Some((s.mappings[base].physicalBase + (a - base), permissions)) else Meaning(s.mappings, a)
      {
        if base <= a < end { MeaningAt(s', base, a); } else { OtherMappings(s, s'.mappings, base, a); }
      }
    }
  }

  /** Unmapping what was just mapped restores every translation. */
  lemma UnmapAfterMap(s: Space, space: Cap.Capability, frames: Cap.Capability, base: int, size: PageSize, pages: int, permissions: nat)
    requires Inv(s) && Unsigned(frames) && base >= 0 && pages >= 0
    requires Map(s, space, frames, base, size, pages, permissions).1.Ok?
    ensures var s' := Unmap(Map(s, space, frames, base, size, pages, permissions).0, base).0;
      s'.mappings == s.mappings && forall a :: Translate(s', a) == Translate(s, a)
  {
    MapKeepsInv(s, space, frames, base, size, pages, permissions);
    hide Canonical, Contains, Inv;
    assert s.mappings[base := Map(s, space, frames, base, size, pages, permissions).1.value] - {base} == s.mappings;
  }

  // ---------------------------------------------------------------------
  // Runs

  datatype Op =
    | MapPages(space: Cap.Capability, frames: Cap.Capability, base: int, size: PageSize, pages: int, permissions: nat)
    | UnmapPages(base: int)
    | ProtectPages(space: Cap.Capability, base: int, permissions: nat)
    | ActivateOn(space: Cap.Capability, cpu: int)
    | DeactivateOn(space: Cap.Capability, cpu: int)
    | DestroySpace(space: Cap.Capability)

  // Arguments are unsigned words.
  predicate Words(op: Op) {
    op.MapPages? ==> Unsigned(op.frames) && op.base >= 0 && op.pages >= 0
  }

  function Step(s: Space, op: Op): Space {
    match op
    case MapPages(space, frames, base, size, pages, p) => Map(s, space, frames, base, size, pages, p).0
    case UnmapPages(base) => Unmap(s, base).0
    case ProtectPages(space, base, p) => Protect(s, space, base, p).0
    case ActivateOn(space, cpu) => Activate(s, space, cpu).0
    case DeactivateOn(space, cpu) => Deactivate(s, space, cpu).0
    case DestroySpace(space) => Destroy(s, space).0
  }

  ghost function Run(s: Space, ops: seq<Op>): Space
    decreases |ops|
  {
    if ops == [] then s else Run(Step(s, ops[0]), ops[1..])
  }

  lemma StepKeeps(s: Space, op: Op)
    requires Inv(s) && Words(op)
    ensures Inv(Step(s, op)) && (s.destroyed ==> Step(s, op).destroyed)
  {
    match op {
      case MapPages(space, frames, base, size, pages, p) => MapAdds(s, space, frames, base, size, pages, p);
      case UnmapPages(base) => UnmapRemoves(s, base);
      case ProtectPages(space, base, p) => ProtectRelabels(s, space, base, p);
      case ActivateOn(space, cpu) =>
      case DeactivateOn(space, cpu) =>
      case DestroySpace(space) =>
    }
  }

  /** Mappings stay well-formed and disjoint, and a destroyed space stays empty, over every run. */
  lemma {:induction false} RunKeeps(s: Space, ops: seq<Op>)
    requires Inv(s) && forall i :: 0 <= i < |ops| ==> Words(ops[i])
    ensures Inv(Run(s, ops)) && (s.destroyed ==> Run(s, ops).destroyed && Run(s, ops).mappings == map[])
    decreases |ops|
  {
    hide Step, Words;
    if ops != [] {
      StepKeeps(s, ops[0]);
      RunKeeps(Step(s, ops[0]), ops[1..]);
    }
  }
}

/** The executable model of the atomic memory interface: an append-only event log,
    and the well-formedness of the execution it records. */
module AtomicLog {
  import opened Wrappers
  import opened Machine

  datatype Ordering = Relaxed | Acquire | Release | AcqRel | SeqCst
  datatype FenceKind = Compiler | Hardware
  datatype Kind = Load | Store | ReadModifyWrite | Fence(fence: FenceKind)
  datatype Error = UnknownCell | DuplicateCell | IllegalLoadOrdering | IllegalStoreOrdering | IllegalFenceOrdering | EventOverflow

  datatype Event = Event(
    id: int, cpu: int, cell: Option<int>, kind: Kind, ordering: Ordering, value: int,
    readsFrom: Option<int>, modificationOrder: Option<int>, sc: Option<int>, happensAfter: Option<int>)

  datatype Cell = Cell(value: int, modificationOrder: int, lastWrite: int, lastOrdering: Ordering)

  datatype State = State(cells: map<int, Cell>, events: seq<Event>, nextEvent: int, nextSc: int)

  const Empty := State(map[], [], 1, 1)

  predicate Releasing(o: Ordering) {
    o == Release || o == AcqRel || o == SeqCst
  }

  predicate Acquiring(o: Ordering) {
    o == Acquire || o == AcqRel || o == SeqCst
  }

  // ---------------------------------------------------------------------
  // The operations

  // A known cell is reset before the duplicate is reported.
  function RegisterOp(s: State, cell: int, initial: int): (State, Result<(), Error>) {
    (s.(cells := s.cells[cell := Cell(initial, 0, 0, Relaxed)]), if cell in s.cells then Err(DuplicateCell) else Ok(()))
  }

  // Draw an event id and, for a sequentially consistent access, an order index.
  function Draw(s: State, o: Ordering): (State, Result<(int, Option<int>), Error>) {
    if s.nextEvent + 1 >= U64_LIMIT then (s, Err(EventOverflow))
    else
      var t := s.(nextEvent := s.nextEvent + 1);
      if o != SeqCst then (t, Ok((s.nextEvent, None)))
      else if t.nextSc + 1 >= U64_LIMIT then (t, Err(EventOverflow))
      else (t.(nextSc := t.nextSc + 1), Ok((s.nextEvent, Some(t.nextSc))))
  }

  function WriteEvent(s: State, cpu: int, cell: int, value: int, o: Ordering, kind: Kind): (State, Result<int, Error>) {
    var (t, d) := Draw(s, o);
    if d.Err? then (t, Err(d.error))
    else if cell !in t.cells then (t, Err(UnknownCell))
    else
      var c := t.cells[cell];
      if c.modificationOrder + 1 >= U64_LIMIT then (t, Err(EventOverflow))
      else
        var (id, sc) := d.value;
        var c' := Cell(value, c.modificationOrder + 1, id, o);
        var e := Event(id, cpu, Some(cell), kind, o, value, None, Some(c'.modificationOrder), sc, None);
        (t.(cells := t.cells[cell := c'], events := t.events + [e]), Ok(id))
  }

  function StoreOp(s: State, cpu: int, cell: int, value: int, o: Ordering): (State, Result<int, Error>) {
    if o == Acquire || o == AcqRel then (s, Err(IllegalStoreOrdering))
    else WriteEvent(s, cpu, cell, value, o, Store)
  }

  function LoadOp(s: State, cpu: int, cell: int, o: Ordering): (State, Result<(int, int), Error>) {
    if o == Release || o == AcqRel then (s, Err(IllegalLoadOrdering))
    else if cell !in s.cells then (s, Err(UnknownCell))
    else
      var c := s.cells[cell];
      var edge := if (o == Acquire || o == SeqCst) && Releasing(c.lastOrdering) && c.lastWrite != 0 then Some(c.lastWrite) else None;
      var (t, d) := Draw(s, o);
      if d.Err? then (t, Err(d.error))
      else
        var (id, sc) := d.value;
        var source := if c.lastWrite != 0 then Some(c.lastWrite) else None;
        var e := Event(id, cpu, Some(cell), Load, o, c.value, source, None, sc, edge);
        (t.(events := t.events + [e]), Ok((c.value, id)))
  }

  // The source of a read-modify-write: the event just before it, if that wrote the cell.
  function Prior(events: seq<Event>, cell: int): Option<int> {
    if |events| < 2 then None
    else
      var p := events[|events| - 2];
      if p.cell == Some(cell) && p.modificationOrder.Some? then Some(p.id) else None
  }

  predicate SomeReleasing(events: seq<Event>, id: int) {
    exists j :: 0 <= j < |events| && events[j].id == id && Releasing(events[j].ordering)
  }

  function FetchAdd(s: State, cpu: int, cell: int, value: int, o: Ordering): (State, Result<(int, int), Error>) {
    if cell !in s.cells then (s, Err(UnknownCell))
    else
      var previous := s.cells[cell].value;
      var (t, r) := WriteEvent(s, cpu, cell, (previous + value) % U64_LIMIT, o, ReadModifyWrite);
      if r.Err? then (t, Err(r.error))
      else if t.events == [] then (t, Ok((previous, r.value)))
      else
        var prior := Prior(t.events, cell);
        var edge := if Acquiring(o) && prior.Some? && SomeReleasing(t.events, prior.value) then prior else None;
        var n := |t.events| - 1;
        (t.(events := t.events[n := t.events[n].(readsFrom := prior, happensAfter := edge)]), Ok((previous, r.value)))
  }

  function FenceOp(s: State, cpu: int, kind: FenceKind, o: Ordering): (State, Result<int, Error>) {
    if o == Relaxed then (s, Err(IllegalFenceOrdering))
    else
      var (t, d) := Draw(s, o);
      if d.Err? then (t, Err(d.error))
      else
        var (id, sc) := d.value;
        (t.(events := t.events + [Event(id, cpu, None, Fence(kind), o, 0, None, None, sc, None)]), Ok(id))
  }

  datatype Op =
    | RegisterCell(cell: int, initial: int)
    | StoreCell(cpu: int, cell: int, value: int, ordering: Ordering)
    | LoadCell(cpu: int, cell: int, ordering: Ordering)
    | AddCell(cpu: int, cell: int, value: int, ordering: Ordering)
    | FenceCpu(cpu: int, fence: FenceKind, ordering: Ordering)

  function Step(s: State, op: Op): State {
    match op
    case RegisterCell(c, v) => RegisterOp(s, c, v).0
    case StoreCell(cpu, c, v, o) => StoreOp(s, cpu, c, v, o).0
    case LoadCell(cpu, c, o) => LoadOp(s, cpu, c, o).0
    case AddCell(cpu, c, v, o) => FetchAdd(s, cpu, c, v, o).0
    case FenceCpu(cpu, k, o) => FenceOp(s, cpu, k, o).0
  }

  ghost function Run(s: State, ops: seq<Op>): State
    decreases |ops|
  {
    if ops == [] then s else Run(Step(s, ops[0]), ops[1..])
  }

  // The initial value given to each cell, when each is registered once.
  ghost function Initials(m: map<int, int>, ops: seq<Op>): map<int, int>
    decreases |ops|
  {
    if ops == [] then m
    else Initials(if ops[0].RegisterCell? then m[ops[0].cell := ops[0].initial] else m, ops[1..])
  }

  predicate RegisteredOnce(ops: seq<Op>) {
    forall i, j :: 0 <= i < j < |ops| && ops[i].RegisterCell? && ops[j].RegisterCell? ==> ops[i].cell != ops[j].cell
  }

  // ---------------------------------------------------------------------
  // A well-formed execution

  predicate Writes(e: Event, cell: int) {
    e.cell == Some(cell) && e.modificationOrder.Some?
  }

  // How many events write a cell, and the last one that does.
  function Count(events: seq<Event>, cell: int): nat {
    if events == [] then 0
    else Count(events[..|events| - 1], cell) + if Writes(events[|events| - 1], cell) then 1 else 0
  }

  function Latest(events: seq<Event>, cell: int): Option<Event> {
    if events == [] then None
    else if Writes(events[|events| - 1], cell) then Some(events[|events| - 1])
    else Latest(events[..|events| - 1], cell)
  }

  // The id of the latest write.
  function Source(events: seq<Event>, cell: int): Option<int> {
    match Latest(events, cell) case None => None case Some(w) => Some(w.id)
  }

  function Value(events: seq<Event>, cell: int, initial: map<int, int>): int {
    match Latest(events, cell)
    case Some(w) => w.value
    case None => if cell in initial then initial[cell] else 0
  }

  // The edge an access of this ordering gets from a write.
  function Edge(o: Ordering, w: Option<Event>): Option<int> {
    if Acquiring(o) && w.Some? && Releasing(w.value.ordering) then Some(w.value.id) else None
  }

  // The event just before, if it wrote the cell.
  function JustBefore(before: seq<Event>, cell: int): Option<Event> {
    if before != [] && Writes(before[|before| - 1], cell) then Some(before[|before| - 1]) else None
  }

  /** What each event must be, given the log before it. */
  predicate Good(before: seq<Event>, e: Event, initial: map<int, int>) {
    && (e.sc.Some? <==> e.ordering == SeqCst)
    && match e.kind
       case Fence(_) => e.cell.None? && e.modificationOrder.None? && e.readsFrom.None? && e.happensAfter.None?
       case Load =>
         && e.cell.Some? && e.cell.value in initial && e.modificationOrder.None?
         && e.value == Value(before, e.cell.value, initial)
         && e.readsFrom == Source(before, e.cell.value)
         && e.happensAfter == Edge(e.ordering, Latest(before, e.cell.value))
       case Store =>
         && e.cell.Some? && e.cell.value in initial
         && e.modificationOrder == Some(Count(before, e.cell.value) + 1)
         && e.readsFrom.None? && e.happensAfter.None?
       case ReadModifyWrite =>
         && e.cell.Some? && e.cell.value in initial
         && e.modificationOrder == Some(Count(before, e.cell.value) + 1)
         && e.readsFrom == (match JustBefore(before, e.cell.value) case None => None case Some(w) => Some(w.id))
         && e.happensAfter == Edge(e.ordering, JustBefore(before, e.cell.value))
  }

  ghost predicate EventsInv(events: seq<Event>, initial: map<int, int>) {
    forall i :: 0 <= i < |events| ==> Good(events[..i], events[i], initial)
  }

  // Ids and order indices strictly increase and lie below the counters.
  ghost predicate IdsInv(s: State) {
    && 1 <= s.nextEvent && 1 <= s.nextSc
    && (forall i :: 0 <= i < |s.events| ==> 1 <= s.events[i].id < s.nextEvent)
    && (forall i, j :: 0 <= i < j < |s.events| ==> s.events[i].id < s.events[j].id)
    && (forall i :: 0 <= i < |s.events| && s.events[i].sc.Some? ==> 1 <= s.events[i].sc.value < s.nextSc)
    && (forall i, j :: 0 <= i < j < |s.events| && s.events[i].sc.Some? && s.events[j].sc.Some? ==>
          s.events[i].sc.value < s.events[j].sc.value)
  }

  // A cell holds what its latest write left.
  predicate CellIs(c: Cell, w: Option<Event>, initial: int) {
    match w
    case None => c.value == initial && c.lastWrite == 0 && c.lastOrdering == Relaxed
    case Some(e) => c.value == e.value && c.lastWrite == e.id && c.lastOrdering == e.ordering
  }

  ghost predicate CellsInv(s: State, initial: map<int, int>) {
    && s.cells.Keys == initial.Keys
    && (forall c :: c in s.cells ==> CellIs(s.cells[c], Latest(s.events, c), initial[c]))
    && (forall c :: c in s.cells ==> s.cells[c].modificationOrder == Count(s.events, c))
    && (forall c :: c !in s.cells ==> Latest(s.events, c).None? && Count(s.events, c) == 0)
  }

  ghost predicate Inv(s: State, initial: map<int, int>) {
    EventsInv(s.events, initial) && IdsInv(s) && CellsInv(s, initial)
  }

  // ---------------------------------------------------------------------
  // Appending

  lemma Appended(events: seq<Event>, e: Event, cell: int)
    ensures Count(events + [e], cell) == Count(events, cell) + if Writes(e, cell) then 1 else 0
    ensures Latest(events + [e], cell) == if Writes(e, cell) then Some(e) else Latest(events, cell)
  {
    assert (events + [e])[..|events|] == events;
  }

  lemma EventsAppend(events: seq<Event>, e: Event, initial: map<int, int>)
    requires EventsInv(events, initial) && Good(events, e, initial)
    ensures EventsInv(events + [e], initial)
  {
    hide Good;
    var all := events + [e];
    forall i | 0 <= i < |all|
      ensures Good(all[..i], all[i], initial)
    {
      if i < |events| { assert all[..i] == events[..i]; } else { assert all[..i] == events; }
    }
  }

  lemma {:induction false} LatestIn(events: seq<Event>, cell: int)
    ensures Latest(events, cell).Some? ==> Latest(events, cell).value in events && Writes(Latest(events, cell).value, cell)
  {
    if events != [] { LatestIn(events[..|events| - 1], cell); }
  }

  // The counters after a draw, and the shape of the new event.
  ghost predicate Drawn(s: State, t: State, o: Ordering, id: int, sc: Option<int>) {
    && t.cells == s.cells && t.events == s.events
    && id == s.nextEvent && t.nextEvent == s.nextEvent + 1
    && (sc.Some? <==> o == SeqCst)
    && (if sc.Some? then sc.value == s.nextSc && t.nextSc == s.nextSc + 1 else t.nextSc == s.nextSc)
  }

  lemma DrawIs(s: State, o: Ordering)
    ensures var (t, d) := Draw(s, o);
      && t.cells == s.cells && t.events == s.events && s.nextEvent <= t.nextEvent && s.nextSc <= t.nextSc
      && (d.Ok? ==> Drawn(s, t, o, d.value.0, d.value.1))
  {
  }

  lemma IdsAppend(s: State, t: State, e: Event)
    requires IdsInv(s) && Drawn(s, t, e.ordering, e.id, e.sc)
    ensures IdsInv(t.(events := s.events + [e]))
  {
  }

  lemma IdsAdvance(s: State, t: State)
    requires IdsInv(s) && t.events == s.events && s.nextEvent <= t.nextEvent && s.nextSc <= t.nextSc
    ensures IdsInv(t)
  {
  }

  lemma LastWriteNonzero(s: State, initial: map<int, int>, cell: int)
    requires Inv(s, initial) && cell in s.cells
    ensures var c := s.cells[cell]; var w := Latest(s.events, cell);
      && (c.lastWrite != 0 <==> w.Some?)
      && (w.Some? ==> w.value.id == c.lastWrite)
  {
    LatestIn(s.events, cell);
  }

  // An event that writes nothing, appended to the log.
  lemma ReadKeeps(s: State, t: State, initial: map<int, int>, e: Event)
    requires Inv(s, initial) && Drawn(s, t, e.ordering, e.id, e.sc)
    requires e.modificationOrder.None? && Good(s.events, e, initial)
    ensures Inv(t.(events := s.events + [e]), initial)
  {
    hide Good, EventsInv, IdsInv, Count, Latest;
    EventsAppend(s.events, e, initial);
    IdsAppend(s, t, e);
    forall c
      ensures Count(s.events + [e], c) == Count(s.events, c) && Latest(s.events + [e], c) == Latest(s.events, c)
    {
      Appended(s.events, e, c);
    }
  }

  lemma LoadKeeps(s: State, initial: map<int, int>, cpu: int, cell: int, o: Ordering)
    requires Inv(s, initial)
    ensures Inv(LoadOp(s, cpu, cell, o).0, initial)
  {
    DrawIs(s, o);
    var (t, d) := Draw(s, o);
    var (s', r) := LoadOp(s, cpu, cell, o);
    if r.Ok? {
      LastWriteNonzero(s, initial, cell);
      var e := s'.events[|s.events|];
      assert s'.events == s.events + [e] && Good(s.events, e, initial);
      hide Inv, Good;
      ReadKeeps(s, t, initial, e);
    } else if s' != s {
      IdsAdvance(s, s');
    }
  }

  // A write appended to the log, with its cell updated to match.
  lemma WriteKeeps(s: State, t: State, initial: map<int, int>, cell: int, e: Event)
    requires Inv(s, initial) && cell in s.cells && Drawn(s, t, e.ordering, e.id, e.sc)
    requires Writes(e, cell) && Good(s.events, e, initial)
    ensures Inv(t.(cells := s.cells[cell := Cell(e.value, s.cells[cell].modificationOrder + 1, e.id, e.ordering)],
      events := s.events + [e]), initial)
  {
    EventsAppend(s.events, e, initial);
    IdsAppend(s, t, e);
    var s' := t.(cells := s.cells[cell := Cell(e.value, s.cells[cell].modificationOrder + 1, e.id, e.ordering)],
      events := s.events + [e]);
    forall c
      ensures Count(s'.events, c) == Count(s.events, c) + (if c == cell then 1 else 0)
      ensures Latest(s'.events, c) == if c == cell then Some(e) else Latest(s.events, c)
    {
      Appended(s.events, e, c);
    }
    hide Good, EventsInv, IdsInv, Count, Latest;
    assert s'.cells.Keys == initial.Keys;
  }

  lemma StoreKeeps(s: State, initial: map<int, int>, cpu: int, cell: int, value: int, o: Ordering)
    requires Inv(s, initial)
    ensures Inv(StoreOp(s, cpu, cell, value, o).0, initial)
  {
    DrawIs(s, o);
    var (t, d) := Draw(s, o);
    var (s', r) := StoreOp(s, cpu, cell, value, o);
    if r.Ok? {
      var e := s'.events[|s.events|];
      assert s'.events == s.events + [e] && Good(s.events, e, initial);
      WriteKeeps(s, t, initial, cell, e);
    } else if s' != s {
      IdsAdvance(s, s');
    }
  }

  // With distinct ids, asking for any releasing event of that id asks about the one before.
  lemma PriorIs(s: State, e: Event, cell: int)
    requires IdsInv(s) && e.id == s.nextEvent
    ensures var all := s.events + [e]; var w := JustBefore(s.events, cell);
      && Prior(all, cell) == (match w case None => None case Some(x) => Some(x.id))
      && (w.Some? ==> (SomeReleasing(all, w.value.id) <==> Releasing(w.value.ordering)))
  {
    var all := s.events + [e];
    if s.events != [] { assert all[|all| - 2] == s.events[|s.events| - 1]; }
    var w := JustBefore(s.events, cell);
    if w.Some? {
      var n := |s.events| - 1;
      assert all[n] == w.value;
      assert forall j :: 0 <= j < n ==> all[j] == s.events[j] && s.events[j].id < s.events[n].id;
      assert forall j :: 0 <= j < |all| && all[j].id == w.value.id ==> j == n;
    }
  }

  // The event a read-modify-write records.
  ghost function AddedEvent(s: State, cpu: int, cell: int, value: int, o: Ordering, id: int, sc: Option<int>): Event
    requires cell in s.cells
  {
    var w := JustBefore(s.events, cell);
    Event(id, cpu, Some(cell), ReadModifyWrite, o, (s.cells[cell].value + value) % U64_LIMIT,
      match w case None => None case Some(x) => Some(x.id),
      Some(s.cells[cell].modificationOrder + 1), sc, Edge(o, w))
  }

  lemma AddedIsGood(s: State, initial: map<int, int>, cpu: int, cell: int, value: int, o: Ordering, id: int, sc: Option<int>)
    requires Inv(s, initial) && cell in s.cells && (sc.Some? <==> o == SeqCst)
    ensures var e := AddedEvent(s, cpu, cell, value, o, id, sc);
      Good(s.events, e, initial) && Writes(e, cell)
  {
    hide EventsInv, IdsInv, Count, Latest, JustBefore, Edge;
  }

  lemma AddStep(s: State, cpu: int, cell: int, value: int, o: Ordering)
    requires IdsInv(s) && FetchAdd(s, cpu, cell, value, o).1.Ok?
    ensures var (t, d) := Draw(s, o);
      && d.Ok? && cell in s.cells
      && var e := AddedEvent(s, cpu, cell, value, o, d.value.0, d.value.1);
         FetchAdd(s, cpu, cell, value, o).0 == t.(
           cells := s.cells[cell := Cell(e.value, s.cells[cell].modificationOrder + 1, e.id, e.ordering)],
           events := s.events + [e])
  {
    DrawIs(s, o);
    var (t, r) := WriteEvent(s, cpu, cell, (s.cells[cell].value + value) % U64_LIMIT, o, ReadModifyWrite);
    var plain := t.events[|s.events|];
    assert t.events == s.events + [plain];
    PriorIs(s, plain, cell);
    hide IdsInv, JustBefore, Prior, SomeReleasing;
    var e := FetchAdd(s, cpu, cell, value, o).0.events[|s.events|];
    assert FetchAdd(s, cpu, cell, value, o).0.events == s.events + [e];
  }

  lemma AddKeeps(s: State, initial: map<int, int>, cpu: int, cell: int, value: int, o: Ordering)
    requires Inv(s, initial)
    ensures Inv(FetchAdd(s, cpu, cell, value, o).0, initial)
  {
    DrawIs(s, o);
    var (s', r) := FetchAdd(s, cpu, cell, value, o);
    if r.Ok? {
      AddStep(s, cpu, cell, value, o);
      var d := Draw(s, o).1.value;
      AddedIsGood(s, initial, cpu, cell, value, o, d.0, d.1);
      hide Inv, FetchAdd;
      WriteKeeps(s, Draw(s, o).0, initial, cell, AddedEvent(s, cpu, cell, value, o, d.0, d.1));
    } else if s' != s {
      IdsAdvance(s, s');
    }
  }

  lemma FenceKeeps(s: State, initial: map<int, int>, cpu: int, kind: FenceKind, o: Ordering)
    requires Inv(s, initial)
    ensures Inv(FenceOp(s, cpu, kind, o).0, initial)
  {
    DrawIs(s, o);
    var (t, d) := Draw(s, o);
    var (s', r) := FenceOp(s, cpu, kind, o);
    if r.Ok? {
      var e := s'.events[|s.events|];
      assert s'.events == s.events + [e] && Good(s.events, e, initial);
      hide Inv, Good;
      ReadKeeps(s, t, initial, e);
    } else if s' != s {
      IdsAdvance(s, s');
    }
  }

  lemma RegisterKeeps(s: State, initial: map<int, int>, cell: int, value: int)
    requires Inv(s, initial) && cell !in s.cells
    ensures Inv(RegisterOp(s, cell, value).0, initial[cell := value])
  {
    var initial' := initial[cell := value];
    forall i | 0 <= i < |s.events|
      ensures Good(s.events[..i], s.events[i], initial')
    {
      assert Good(s.events[..i], s.events[i], initial);
    }
    hide Good;
    assert EventsInv(s.events, initial');
    assert IdsInv(RegisterOp(s, cell, value).0);
  }

  // ---------------------------------------------------------------------
  // Registering a cell again

  predicate Untouched(events: seq<Event>, cell: int) {
    forall i :: 0 <= i < |events| ==> !Writes(events[i], cell)
  }

  predicate Unread(events: seq<Event>, cell: int) {
    forall i :: 0 <= i < |events| && events[i].kind == Load ==> events[i].cell != Some(cell)
  }

  // What a caller can see before it registers a cell: the cell is new, or nothing has
  // written it and nothing has loaded another value from it.
  predicate Harmless(s: State, cell: int, value: int) {
    cell in s.cells ==> Untouched(s.events, cell) && (s.cells[cell].value == value || Unread(s.events, cell))
  }

  lemma {:induction false} UntouchedIs(events: seq<Event>, cell: int)
    ensures Untouched(events, cell) <==> Latest(events, cell).None?
    ensures Untouched(events, cell) <==> Count(events, cell) == 0
  {
    if events != [] {
      var n := |events| - 1;
      UntouchedIs(events[..n], cell);
      assert forall i :: 0 <= i < n ==> events[..n][i] == events[i];
      assert Writes(events[n], cell) ==> !Untouched(events, cell);
      if Untouched(events[..n], cell) && !Writes(events[n], cell) {
        assert forall i :: 0 <= i < n ==> !Writes(events[..n][i], cell);
      }
    }
  }

  lemma UntouchedBefore(events: seq<Event>, i: nat, cell: int)
    requires i < |events| && Untouched(events, cell)
    ensures Latest(events[..i], cell).None?
  {
    UntouchedIs(events[..i], cell);
  }

  // A load of an untouched cell shows the initial value.
  lemma LoadShows(events: seq<Event>, initial: map<int, int>, cell: int, i: nat)
    requires EventsInv(events, initial) && Untouched(events, cell)
    requires i < |events| && events[i].kind == Load && events[i].cell == Some(cell)
    ensures cell in initial && events[i].value == initial[cell]
  {
    UntouchedBefore(events, i, cell);
    assert Good(events[..i], events[i], initial);
  }

  // An execution of the reset state fixes what the log showed before.
  lemma ResetNeeds(s: State, initial: map<int, int>, m: map<int, int>, cell: int, value: int)
    requires Inv(s, initial) && cell in s.cells && Inv(RegisterOp(s, cell, value).0, m)
    ensures Harmless(s, cell, value) && m[cell] == value
  {
    hide EventsInv, IdsInv;
    UntouchedIs(s.events, cell);
    hide Untouched;
    if !Unread(s.events, cell) {
      var i :| 0 <= i < |s.events| && s.events[i].kind == Load && s.events[i].cell == Some(cell);
      LoadShows(s.events, initial, cell, i);
      LoadShows(s.events, m, cell, i);
    }
  }

  // The log does not notice another initial value of a cell it never showed.
  lemma ResetGood(s: State, initial: map<int, int>, cell: int, value: int, i: nat)
    requires EventsInv(s.events, initial) && cell in s.cells && cell in initial && i < |s.events|
    requires Untouched(s.events, cell) && (initial[cell] == value || Unread(s.events, cell))
    ensures Good(s.events[..i], s.events[i], initial[cell := value])
  {
    assert Good(s.events[..i], s.events[i], initial);
    hide Untouched, EventsInv;
    assert initial[cell] == value ==> initial[cell := value] == initial;
  }

  lemma ResetKeeps(s: State, initial: map<int, int>, cell: int, value: int)
    requires Inv(s, initial) && cell in s.cells && Harmless(s, cell, value)
    ensures Inv(RegisterOp(s, cell, value).0, initial[cell := value])
  {
    UntouchedIs(s.events, cell);
    hide Untouched, Good, Latest, Count, Unread;
    forall i | 0 <= i < |s.events|
      ensures Good(s.events[..i], s.events[i], initial[cell := value])
    {
      ResetGood(s, initial, cell, value, i);
    }
    assert IdsInv(RegisterOp(s, cell, value).0);
  }

  /** Registering a known cell again leaves an execution that some initial values explain
      if and only if nothing has written the cell and nothing has loaded another value
      from it; the initial values are then the old ones with the new value. */
  lemma ReRegisterExactly(s: State, initial: map<int, int>, cell: int, value: int)
    requires Inv(s, initial) && cell in s.cells
    ensures (exists m :: Inv(RegisterOp(s, cell, value).0, m)) <==> Harmless(s, cell, value)
    ensures Inv(RegisterOp(s, cell, value).0, initial[cell := value]) <==> Harmless(s, cell, value)
    ensures Inv(RegisterOp(s, cell, value).0, initial) <==> Harmless(s, cell, value) && s.cells[cell].value == value
  {
    var s' := RegisterOp(s, cell, value).0;
    if m :| Inv(s', m) { ResetNeeds(s, initial, m, cell, value); }
    if Inv(s', initial) { ResetNeeds(s, initial, initial, cell, value); }
    if Harmless(s, cell, value) {
      UntouchedIs(s.events, cell);
      assert s.cells[cell].value == initial[cell];
      ResetKeeps(s, initial, cell, value);
      assert initial[cell] == value ==> initial[cell := value] == initial;
    }
    hide Inv, Harmless, RegisterOp;
  }

  const ResetRun: seq<Op> := [RegisterCell(0, 0), StoreCell(0, 0, 5, Release), RegisterCell(0, 7), LoadCell(0, 0, Acquire)]

  /** A cell reset after a store: the load that follows reads the new initial value and
      names no source, although the store is in the log. No initial values explain it. */
  lemma ResetForgetsWrite()
    ensures !Harmless(Run(Empty, ResetRun[..2]), 0, 7)
    ensures var es := Run(Empty, ResetRun).events;
      && |es| == 2 && es[0].kind == Store && es[0].cell == Some(0) && es[0].value == 5
      && es[1].kind == Load && es[1].cell == Some(0) && es[1].value == 7 && es[1].readsFrom.None?
    ensures forall m :: !EventsInv(Run(Empty, ResetRun).events, m)
  {
    var ops := ResetRun;
    var s1 := Step(Empty, ops[0]);
    var s2 := Step(s1, ops[1]);
    var s3 := Step(s2, ops[2]);
    var s4 := Step(s3, ops[3]);
    assert ops[..2][1..][1..] == [] && ops[1..][1..][1..][1..] == [];
    assert Run(Empty, ops[..2]) == Run(s1, ops[..2][1..]) == Run(s2, ops[..2][1..][1..]) == s2;
    assert Run(Empty, ops) == Run(s1, ops[1..]) == Run(s2, ops[1..][1..]) == Run(s3, ops[1..][1..][1..]) == s4;
    var es := s4.events;
    assert Writes(s2.events[0], 0) && es[..1] == [es[0]];
    forall m
      ensures !EventsInv(es, m)
    {
      assert Source(es[..1], 0) == Some(1);
      assert !Good(es[..1], es[1], m);
    }
  }

  // ---------------------------------------------------------------------
  // Runs

  ghost predicate HarmlessRun(s: State, ops: seq<Op>)
    decreases |ops|
  {
    ops == [] ||
    ((ops[0].RegisterCell? ==> Harmless(s, ops[0].cell, ops[0].initial)) && HarmlessRun(Step(s, ops[0]), ops[1..]))
  }

  lemma {:induction false} RunKeeps(s: State, initial: map<int, int>, ops: seq<Op>)
    requires Inv(s, initial) && HarmlessRun(s, ops)
    ensures Inv(Run(s, ops), Initials(initial, ops))
    decreases |ops|
  {
    hide Inv, Step, Harmless;
    if ops != [] {
      var op := ops[0];
      StepKeepsExactly(s, initial, op);
      RunKeeps(Step(s, op), if op.RegisterCell? then initial[op.cell := op.initial] else initial, ops[1..]);
    }
  }

  /** Registering each cell once is harmless. */
  lemma {:induction false} OnceIsHarmless(s: State, ops: seq<Op>)
    requires RegisteredOnce(ops)
    requires forall i :: 0 <= i < |ops| && ops[i].RegisterCell? ==> ops[i].cell !in s.cells
    ensures HarmlessRun(s, ops)
    decreases |ops|
  {
    if ops != [] {
      var op, rest := ops[0], ops[1..];
      assert forall i :: 0 <= i < |rest| ==> rest[i] == ops[i + 1];
      SameCells(s, op);
      hide Step;
      OnceIsHarmless(Step(s, op), rest);
    }
  }

  lemma SameCells(s: State, op: Op)
    ensures Step(s, op).cells.Keys == if op.RegisterCell? then s.cells.Keys + {op.cell} else s.cells.Keys
  {
    if !op.RegisterCell? && !op.FenceCpu? { DrawIs(s, op.ordering); }
    if op.FenceCpu? { DrawIs(s, op.ordering); }
  }

  /** An operation keeps the execution well formed if and only if it is not a registration
      that does harm. */
  lemma StepKeepsExactly(s: State, initial: map<int, int>, op: Op)
    requires Inv(s, initial)
    ensures Inv(Step(s, op), if op.RegisterCell? then initial[op.cell := op.initial] else initial)
      <==> (op.RegisterCell? ==> Harmless(s, op.cell, op.initial))
  {
    match op {
      case RegisterCell(c, v) => if c in s.cells { ReRegisterExactly(s, initial, c, v); } else { RegisterKeeps(s, initial, c, v); }
      case _ => AccessKeeps(s, initial, op);
    }
    hide Inv, Step;
  }

  lemma AccessKeeps(s: State, initial: map<int, int>, op: Op)
    requires Inv(s, initial) && !op.RegisterCell?
    ensures Inv(Step(s, op), initial)
  {
    hide Inv, RegisterOp, StoreOp, LoadOp, FetchAdd, FenceOp;
    match op {
      case StoreCell(cpu, c, v, o) => StoreKeeps(s, initial, cpu, c, v, o);
      case LoadCell(cpu, c, o) => LoadKeeps(s, initial, cpu, c, o);
      case AddCell(cpu, c, v, o) => AddKeeps(s, initial, cpu, c, v, o);
      case FenceCpu(cpu, k, o) => FenceKeeps(s, initial, cpu, k, o);
    }
  }

  /** Every run whose registrations are harmless records a well-formed execution. */
  lemma WellFormedExecution(ops: seq<Op>)
    requires HarmlessRun(Empty, ops)
    ensures Inv(Run(Empty, ops), Initials(map[], ops))
  {
    assert Inv(Empty, map[]);
    RunKeeps(Empty, map[], ops);
  }

  // ---------------------------------------------------------------------
  // Reading the log

  lemma {:induction false} CountIsOrder(events: seq<Event>, initial: map<int, int>, cell: int)
    requires EventsInv(events, initial) && Latest(events, cell).Some?
    ensures Latest(events, cell).value.modificationOrder == Some(Count(events, cell))
  {
    var n := |events| - 1;
    assert Good(events[..n], events[n], initial);
    if !Writes(events[n], cell) {
      assert EventsInv(events[..n], initial) by {
        forall i | 0 <= i < n
          ensures Good(events[..n][..i], events[..n][i], initial)
        {
          assert events[..n][..i] == events[..i];
        }
      }
      CountIsOrder(events[..n], initial, cell);
    }
  }

  lemma PrefixInv(events: seq<Event>, initial: map<int, int>, k: nat)
    requires EventsInv(events, initial) && k <= |events|
    ensures EventsInv(events[..k], initial)
  {
    hide Good;
    forall i | 0 <= i < k
      ensures Good(events[..k][..i], events[..k][i], initial)
    {
      assert events[..k][..i] == events[..i];
    }
  }

  /** The recorded source of a read-modify-write is its predecessor in modification order. */
  lemma RmwReadsPredecessor(events: seq<Event>, initial: map<int, int>, i: nat)
    requires EventsInv(events, initial) && i < |events|
    requires events[i].kind == ReadModifyWrite && events[i].readsFrom.Some?
    ensures i > 0 && events[i].cell.Some? && Writes(events[i - 1], events[i].cell.value)
    ensures events[i].readsFrom == Some(events[i - 1].id)
    ensures events[i].modificationOrder.Some? && events[i - 1].modificationOrder.Some?
    ensures events[i].modificationOrder.value == events[i - 1].modificationOrder.value + 1
  {
    assert Good(events[..i], events[i], initial);
    var c := events[i].cell.value;
    PrefixInv(events, initial, i);
    assert events[..i][|events[..i]| - 1] == events[i - 1];
    CountIsOrder(events[..i], initial, c);
  }

  /** It is recorded exactly when the event just before wrote the same cell. */
  lemma RmwSourceRecordedExactly(events: seq<Event>, initial: map<int, int>, i: nat)
    requires EventsInv(events, initial) && i < |events| && events[i].kind == ReadModifyWrite
    ensures events[i].cell.Some?
    ensures events[i].readsFrom.Some? <==> i > 0 && Writes(events[i - 1], events[i].cell.value)
  {
    assert Good(events[..i], events[i], initial);
    if i > 0 { assert events[..i][|events[..i]| - 1] == events[i - 1]; }
  }

  /** Every happens-after edge joins an acquiring reader to a releasing write of the same
      cell that it reads from. */
  lemma EdgesSynchronize(events: seq<Event>, initial: map<int, int>, i: nat) returns (j: nat)
    requires EventsInv(events, initial) && i < |events| && events[i].happensAfter.Some?
    ensures j < i && events[i].happensAfter == events[i].readsFrom == Some(events[j].id)
    ensures Acquiring(events[i].ordering) && Releasing(events[j].ordering)
    ensures events[i].cell.Some? && Writes(events[j], events[i].cell.value)
  {
    var e, before := events[i], events[..i];
    assert Good(before, e, initial);
    var w := if e.kind == Load then Latest(before, e.cell.value) else JustBefore(before, e.cell.value);
    LatestIn(before, e.cell.value);
    assert w.value in before;
    j :| 0 <= j < |before| && before[j] == w.value;
  }

  predicate Acquires(o: Ordering) {
    o in {Ordering.Acquire, Ordering.AcqRel, Ordering.SeqCst}
  }

  predicate Releases(o: Ordering) {
    o in {Ordering.Release, Ordering.AcqRel, Ordering.SeqCst}
  }

  /** A read has an edge exactly when it acquires and the write it reads from releases. */
  lemma EdgeExactly(s: State, initial: map<int, int>, i: nat, j: nat)
    requires Inv(s, initial) && j < i < |s.events| && (s.events[i].kind == Load || s.events[i].kind == ReadModifyWrite)
    requires s.events[i].readsFrom == Some(s.events[j].id)
    ensures s.events[i].happensAfter ==
      if Acquires(s.events[i].ordering) && Releases(s.events[j].ordering) then s.events[i].readsFrom else None
  {
    var e, before := s.events[i], s.events[..i];
    assert Good(before, e, initial);
    var w := if e.kind == Load then Latest(before, e.cell.value) else JustBefore(before, e.cell.value);
    LatestIn(before, e.cell.value);
    assert w.value in before;
    var k :| 0 <= k < |before| && before[k] == w.value;
    SameId(s, j, k);
  }

  lemma SameId(s: State, j: nat, k: nat)
    requires IdsInv(s) && j < |s.events| && k < |s.events| && s.events[j].id == s.events[k].id
    ensures j == k
  {
  }

  /** A load returns the value of the latest earlier write of its cell, and names it. */
  lemma LoadReadsLatest(events: seq<Event>, initial: map<int, int>, i: nat)
    requires EventsInv(events, initial) && i < |events| && events[i].kind == Load
    ensures events[i].cell.Some?
    ensures var c := events[i].cell.value;
      if events[i].readsFrom.None? then
        c in initial && events[i].value == initial[c] && forall k :: 0 <= k < i ==> !Writes(events[k], c)
      else
        exists j :: 0 <= j < i && Writes(events[j], c) && events[i].readsFrom == Some(events[j].id)
          && events[i].value == events[j].value && forall k :: j < k < i ==> !Writes(events[k], c)
  {
    var before := events[..i];
    assert Good(before, events[i], initial);
    var c := events[i].cell.value;
    if events[i].readsFrom.None? {
      UntouchedIs(before, c);
      assert forall k :: 0 <= k < i ==> before[k] == events[k];
    } else {
      var j := LatestAt(before, c);
      assert forall k :: 0 <= k < i ==> before[k] == events[k];
    }
  }

  lemma {:induction false} LatestAt(events: seq<Event>, cell: int) returns (j: nat)
    requires Latest(events, cell).Some?
    ensures j < |events| && events[j] == Latest(events, cell).value && Writes(events[j], cell)
    ensures forall k :: j < k < |events| ==> !Writes(events[k], cell)
  {
    var n := |events| - 1;
    if Writes(events[n], cell) {
      j := n;
    } else {
      j := LatestAt(events[..n], cell);
      assert forall k :: 0 <= k < n ==> events[..n][k] == events[k];
    }
  }

  const SourceHiding: seq<Op> :=
    [RegisterCell(0, 0), StoreCell(0, 0, 5, Release), LoadCell(0, 0, Acquire), AddCell(0, 0, 1, AcqRel)]

  /** A load between a write and an addition hides the source: the addition follows the
      store in modification order but does not record it. */
  lemma HiddenSource()
    ensures RegisteredOnce(SourceHiding)
    ensures var es := Run(Empty, SourceHiding).events;
      && |es| == 3
      && es[0].kind == Store && es[0].modificationOrder == Some(1) && es[1].kind == Load
      && es[2].kind == ReadModifyWrite && es[2].modificationOrder == Some(2) && es[2].readsFrom.None?
  {
    var ops := SourceHiding;
    assert ops[1..][1..][1..][1..] == [];
    var s1 := Step(Empty, ops[0]);
    var s2 := Step(s1, ops[1]);
    var s3 := Step(s2, ops[2]);
    var s4 := Step(s3, ops[3]);
    assert Run(Empty, ops) == Run(s1, ops[1..]) == Run(s2, ops[1..][1..]) == Run(s3, ops[1..][1..][1..]) == s4;
  }

  /** An addition returns, and adds to, the value of the latest write. */
  lemma AddContinuesLatest(s: State, initial: map<int, int>, cpu: int, cell: int, value: int, o: Ordering)
    requires Inv(s, initial) && FetchAdd(s, cpu, cell, value, o).1.Ok?
    ensures var (s', r) := FetchAdd(s, cpu, cell, value, o);
      && r.value.0 == Value(s.events, cell, initial)
      && Value(s'.events, cell, initial) == (r.value.0 + value) % U64_LIMIT
  {
    AddKeeps(s, initial, cpu, cell, value, o);
    hide EventsInv, IdsInv;
    DrawIs(s, o);
  }

  // ---------------------------------------------------------------------
  // Exactly which accesses are recorded, and as what

  // The orderings each access allows, a known cell, and counters that are not exhausted.
  predicate Admits(s: State, op: Op) {
    && !op.RegisterCell?
    && s.nextEvent + 1 < 0x1_0000_0000_0000_0000
    && (op.ordering == SeqCst ==> s.nextSc + 1 < 0x1_0000_0000_0000_0000)
    && (op.StoreCell? ==> op.ordering in {Relaxed, Ordering.Release, SeqCst})
    && (op.LoadCell? ==> op.ordering in {Relaxed, Ordering.Acquire, SeqCst})
    && (op.FenceCpu? ==> op.ordering != Relaxed)
    && (!op.FenceCpu? ==> op.cell in s.cells)
    && (op.StoreCell? || op.AddCell? ==> op.cell in s.cells && s.cells[op.cell].modificationOrder + 1 < 0x1_0000_0000_0000_0000)
  }

  predicate Recorded(s: State, op: Op) {
    match op
    case RegisterCell(_, _) => false
    case StoreCell(cpu, c, v, o) => StoreOp(s, cpu, c, v, o).1.Ok?
    case LoadCell(cpu, c, o) => LoadOp(s, cpu, c, o).1.Ok?
    case AddCell(cpu, c, v, o) => FetchAdd(s, cpu, c, v, o).1.Ok?
    case FenceCpu(cpu, k, o) => FenceOp(s, cpu, k, o).1.Ok?
  }

  // The new event names its access; the well-formedness of the log says the rest.
  predicate Names(s: State, op: Op, e: Event) {
    && e.id == s.nextEvent && !op.RegisterCell? && e.cpu == op.cpu && e.ordering == op.ordering
    && match op
       case RegisterCell(_, _) => false
       case StoreCell(_, c, v, _) => e.kind == Store && e.cell == Some(c) && e.value == v
       case LoadCell(_, c, _) => e.kind == Load && e.cell == Some(c) && c in s.cells && e.value == s.cells[c].value
       case AddCell(_, c, v, _) =>
         && e.kind == ReadModifyWrite && e.cell == Some(c) && c in s.cells
         && e.value == (s.cells[c].value + v) % 0x1_0000_0000_0000_0000
       case FenceCpu(_, k, _) => e.kind == Fence(k) && e.cell == None && e.value == 0
  }

  lemma DrawExactly(s: State, o: Ordering)
    ensures Draw(s, o).1.Ok? <==>
      s.nextEvent + 1 < 0x1_0000_0000_0000_0000 && (o == SeqCst ==> s.nextSc + 1 < 0x1_0000_0000_0000_0000)
  {
  }

  /** An access is recorded exactly when it is admitted: the log grows by one event that
      names it. Otherwise log and cells are as they were. */
  lemma RecordedExactly(s: State, op: Op)
    requires !op.RegisterCell?
    ensures Recorded(s, op) <==> Admits(s, op)
    ensures var t := Step(s, op);
      if Recorded(s, op) then |t.events| == |s.events| + 1 && t.events[..|s.events|] == s.events && Names(s, op, t.events[|s.events|])
      else t.events == s.events && t.cells == s.cells
  {
    DrawExactly(s, op.ordering);
    DrawIs(s, op.ordering);
    hide Draw, SomeReleasing, Prior;
    match op {
      case AddCell(cpu, c, v, o) => AddRecorded(s, op);
      case _ =>
    }
  }

  lemma AddRecorded(s: State, op: Op)
    requires op.AddCell?
    ensures Recorded(s, op) <==> Admits(s, op)
    ensures var t := Step(s, op);
      if Recorded(s, op) then |t.events| == |s.events| + 1 && t.events[..|s.events|] == s.events && Names(s, op, t.events[|s.events|])
      else t.events == s.events && t.cells == s.cells
  {
    DrawExactly(s, op.ordering);
    DrawIs(s, op.ordering);
    hide Draw, SomeReleasing, Prior;
  }

  lemma AddMeans(s: State, initial: map<int, int>, cpu: int, cell: int, value: int, o: Ordering)
    ensures var (s', r) := FetchAdd(s, cpu, cell, value, o);
      Inv(s, initial) ==>
        && Inv(s', initial)
        && (r.Ok? ==> r.value.0 == Value(s.events, cell, initial)
                      && Value(s'.events, cell, initial) == (r.value.0 + value) % U64_LIMIT)
  {
    hide Inv, Value, FetchAdd;
    if Inv(s, initial) {
      AddKeeps(s, initial, cpu, cell, value, o);
      if FetchAdd(s, cpu, cell, value, o).1.Ok? { AddContinuesLatest(s, initial, cpu, cell, value, o); }
    }
  }

  // ---------------------------------------------------------------------
  // The model as an object

  class AtomicMemoryModel {
    var cells: map<int, Cell>
    var events: seq<Event>
    var nextEvent: int
    var nextSc: int

    // The value each cell was registered with.
    ghost var initial: map<int, int>

    ghost function View(): State
      reads this
    {
      State(cells, events, nextEvent, nextSc)
    }

    // The log is a well-formed execution of the registered cells.
    ghost predicate Valid()
      reads this
    {
      Inv(View(), initial)
    }

    constructor ()
      ensures View() == Empty && initial == map[] && Valid()
    {
      cells, events, nextEvent, nextSc, initial := map[], [], 1, 1, map[];
    }

    /** A new cell keeps the execution well formed. A known one is reset, which keeps it so
        exactly when nothing has written it or loaded another value from it. */
    method Register(cell: int, value: int) returns (r: Result<(), Error>)
      modifies this
      ensures (View(), r) == RegisterOp(old(View()), cell, value)
      ensures r.Ok? <==> cell !in old(cells)
      ensures initial == old(initial)[cell := value]
      ensures old(Valid()) ==> (Valid() <==> Harmless(old(View()), cell, value))
      ensures old(Valid()) && r.Err? ==> ((exists m :: Inv(View(), m)) <==> Valid())
    {
      if Inv(View(), initial) {
        StepKeepsExactly(View(), initial, RegisterCell(cell, value));
        if cell in cells { ReRegisterExactly(View(), initial, cell, value); }
      }
      hide Inv, Harmless;
      var known := cell in cells;
      cells := cells[cell := Cell(value, 0, 0, Relaxed)];
      initial := initial[cell := value];
      r := if known then Err(DuplicateCell) else Ok(());
    }

    // `next_event_id` then `sc_index`: an id above every one in the log.
    method DrawIds(o: Ordering) returns (r: Result<(int, Option<int>), Error>)
      modifies this`nextEvent, this`nextSc
      ensures (View(), r) == Draw(old(View()), o)
      ensures old(Valid()) && r.Ok? ==> forall i :: 0 <= i < |events| ==> events[i].id < r.value.0
      ensures old(Valid()) && r.Ok? && r.value.1.Some? ==>
        forall i :: 0 <= i < |events| && events[i].sc.Some? ==> events[i].sc.value < r.value.1.value
    {
      var id := nextEvent;
      if nextEvent + 1 >= U64_LIMIT { return Err(EventOverflow); }
      nextEvent := nextEvent + 1;
      if o != SeqCst { return Ok((id, None)); }
      var index := nextSc;
      if nextSc + 1 >= U64_LIMIT { return Err(EventOverflow); }
      nextSc := nextSc + 1;
      r := Ok((id, Some(index)));
    }

    // The body of `write_event`.
    method AppendWrite(cpu: int, cell: int, value: int, o: Ordering, kind: Kind) returns (r: Result<int, Error>)
      modifies this`cells, this`events, this`nextEvent, this`nextSc
      ensures (View(), r) == WriteEvent(old(View()), cpu, cell, value, o, kind)
    {
      hide Inv;
      var d := DrawIds(o);
      if d.Err? { return Err(d.error); }
      var (id, sc) := d.value;
      if cell !in cells { return Err(UnknownCell); }
      var state := cells[cell];
      if state.modificationOrder + 1 >= U64_LIMIT { return Err(EventOverflow); }
      state := Cell(value, state.modificationOrder + 1, id, o);
      cells := cells[cell := state];
      events := events + [Event(id, cpu, Some(cell), kind, o, value, None, Some(state.modificationOrder), sc, None)];
      r := Ok(id);
    }

    method Store(cpu: int, cell: int, value: int, o: Ordering) returns (r: Result<int, Error>)
      modifies this
      ensures (View(), r) == StoreOp(old(View()), cpu, cell, value, o) && initial == old(initial)
      ensures old(Valid()) ==> Valid()
      ensures old(Valid()) && r.Ok? ==>
        Value(events, cell, initial) == value && Count(events, cell) == Count(old(events), cell) + 1
      ensures r.Ok? <==> Admits(old(View()), StoreCell(cpu, cell, value, o))
      ensures r.Ok? ==> |events| == |old(events)| + 1 && Names(old(View()), StoreCell(cpu, cell, value, o), events[|old(events)|])
      ensures r.Err? ==> events == old(events) && cells == old(cells)
    {
      RecordedExactly(View(), StoreCell(cpu, cell, value, o));
      hide Admits, Names;
      if Inv(View(), initial) {
        StoreKeeps(View(), initial, cpu, cell, value, o);
        StoreIsLatest(View(), initial, cpu, cell, value, o);
      }
      hide Inv, WriteEvent, Value, Count;
      if o == Acquire || o == AcqRel { return Err(IllegalStoreOrdering); }
      r := AppendWrite(cpu, cell, value, o, Kind.Store);
    }

    static lemma StoreIsLatest(s: State, initial: map<int, int>, cpu: int, cell: int, value: int, o: Ordering)
      ensures var (s', r) := StoreOp(s, cpu, cell, value, o);
        r.Ok? ==> Value(s'.events, cell, initial) == value && Count(s'.events, cell) == Count(s.events, cell) + 1
    {
      DrawIs(s, o);
      var (s', r) := StoreOp(s, cpu, cell, value, o);
      if r.Ok? {
        var e := s'.events[|s.events|];
        assert s'.events == s.events + [e];
        Appended(s.events, e, cell);
      }
    }

    method Load(cpu: int, cell: int, o: Ordering) returns (r: Result<(int, int), Error>)
      modifies this
      ensures (View(), r) == LoadOp(old(View()), cpu, cell, o) && initial == old(initial)
      ensures old(Valid()) ==> Valid()
      ensures old(Valid()) && r.Ok? ==> r.value.0 == Value(old(events), cell, initial)
      ensures r.Ok? <==> Admits(old(View()), LoadCell(cpu, cell, o))
      ensures r.Ok? ==> |events| == |old(events)| + 1 && Names(old(View()), LoadCell(cpu, cell, o), events[|old(events)|])
      ensures r.Err? ==> events == old(events) && cells == old(cells)
    {
      RecordedExactly(View(), LoadCell(cpu, cell, o));
      if Inv(View(), initial) {
        LoadKeeps(View(), initial, cpu, cell, o);
        LoadIsLatest(View(), initial, cpu, cell, o);
      }
      hide Admits, Names, Inv, Value, LoadOp;
      r := AppendLoad(cpu, cell, o);
    }

    method AppendLoad(cpu: int, cell: int, o: Ordering) returns (r: Result<(int, int), Error>)
      modifies this`events, this`nextEvent, this`nextSc
      ensures (View(), r) == LoadOp(old(View()), cpu, cell, o)
    {
      hide Inv;
      if o == Release || o == AcqRel { return Err(IllegalLoadOrdering); }
      if cell !in cells { return Err(UnknownCell); }
      var state := cells[cell];
      var edge: Option<int> := None;
      if (o == Acquire || o == SeqCst) && Releasing(state.lastOrdering) && state.lastWrite != 0 {
        edge := Some(state.lastWrite);
      }
      var d := DrawIds(o);
      if d.Err? { return Err(d.error); }
      var (id, sc) := d.value;
      var source := if state.lastWrite != 0 then Some(state.lastWrite) else None;
      events := events + [Event(id, cpu, Some(cell), Kind.Load, o, state.value, source, None, sc, edge)];
      r := Ok((state.value, id));
    }

    static lemma LoadIsLatest(s: State, initial: map<int, int>, cpu: int, cell: int, o: Ordering)
      requires Inv(s, initial)
      ensures LoadOp(s, cpu, cell, o).1.Ok? ==> LoadOp(s, cpu, cell, o).1.value.0 == Value(s.events, cell, initial)
    {
      hide EventsInv, IdsInv;
    }

    // `any` over the log.
    method AnyReleasing(id: int) returns (found: bool)
      ensures found <==> SomeReleasing(events, id)
    {
      for j := 0 to |events|
        invariant forall k :: 0 <= k < j ==> !(events[k].id == id && Releasing(events[k].ordering))
      {
        if events[j].id == id && Releasing(events[j].ordering) {
          return true;
        }
      }
      found := false;
    }

    method Add(cpu: int, cell: int, value: int, o: Ordering) returns (r: Result<(int, int), Error>)
      modifies this
      ensures (View(), r) == FetchAdd(old(View()), cpu, cell, value, o) && initial == old(initial)
      ensures old(Valid()) ==> Valid()
      ensures old(Valid()) && r.Ok? ==>
        && r.value.0 == Value(old(events), cell, initial)
        && Value(events, cell, initial) == (r.value.0 + value) % U64_LIMIT
      ensures r.Ok? <==> Admits(old(View()), AddCell(cpu, cell, value, o))
      ensures r.Ok? ==> |events| == |old(events)| + 1 && Names(old(View()), AddCell(cpu, cell, value, o), events[|old(events)|])
      ensures r.Err? ==> events == old(events) && cells == old(cells)
    {
      hide Admits, Names, Inv, Value, FetchAdd, StoreOp, LoadOp, FenceOp, RegisterOp;
      RecordedExactly(View(), AddCell(cpu, cell, value, o));
      AddMeans(View(), initial, cpu, cell, value, o);
      r := AppendAdd(cpu, cell, value, o);
    }

    method AppendAdd(cpu: int, cell: int, value: int, o: Ordering) returns (r: Result<(int, int), Error>)
      modifies this`cells, this`events, this`nextEvent, this`nextSc
      ensures (View(), r) == FetchAdd(old(View()), cpu, cell, value, o)
    {
      hide SomeReleasing, Inv;
      if cell !in cells { return Err(UnknownCell); }
      var previous := cells[cell].value;
      var w := AppendWrite(cpu, cell, (previous + value) % U64_LIMIT, o, ReadModifyWrite);
      if w.Err? { return Err(w.error); }
      var prior := Prior(events, cell);
      var edge: Option<int> := None;
      if Acquiring(o) && prior.Some? {
        var releasing := AnyReleasing(prior.value);
        if releasing { edge := prior; }
      }
      if events != [] {
        var n := |events| - 1;
        events := events[n := events[n].(readsFrom := prior, happensAfter := edge)];
      }
      r := Ok((previous, w.value));
    }

    method Fence(cpu: int, kind: FenceKind, o: Ordering) returns (r: Result<int, Error>)
      modifies this
      ensures (View(), r) == FenceOp(old(View()), cpu, kind, o) && initial == old(initial)
      ensures old(Valid()) ==> Valid()
      ensures cells == old(cells) && old(events) <= events
      ensures r.Ok? <==> Admits(old(View()), FenceCpu(cpu, kind, o))
      ensures r.Ok? ==> |events| == |old(events)| + 1 && Names(old(View()), FenceCpu(cpu, kind, o), events[|old(events)|])
      ensures r.Err? ==> events == old(events) && cells == old(cells)
    {
      FenceMeans(View(), initial, cpu, kind, o);
      hide Admits, Names, Inv, FetchAdd, StoreOp, LoadOp, FenceOp, RegisterOp;
      RecordedExactly(View(), FenceCpu(cpu, kind, o));
      r := AppendFence(cpu, kind, o);
    }

    static lemma FenceMeans(s: State, initial: map<int, int>, cpu: int, kind: FenceKind, o: Ordering)
      ensures var t := FenceOp(s, cpu, kind, o).0;
        (Inv(s, initial) ==> Inv(t, initial)) && t.cells == s.cells && s.events <= t.events
    {
      hide Inv, FenceOp;
      if Inv(s, initial) { FenceKeeps(s, initial, cpu, kind, o); }
      FenceAppends(s, cpu, kind, o);
    }

    static lemma FenceAppends(s: State, cpu: int, kind: FenceKind, o: Ordering)
      ensures var t := FenceOp(s, cpu, kind, o).0; t.cells == s.cells && s.events <= t.events
    {
      DrawIs(s, o);
      hide Draw;
    }

    method AppendFence(cpu: int, kind: FenceKind, o: Ordering) returns (r: Result<int, Error>)
      modifies this`events, this`nextEvent, this`nextSc
      ensures (View(), r) == FenceOp(old(View()), cpu, kind, o)
    {
      hide Inv;
      if o == Relaxed { return Err(IllegalFenceOrdering); }
      var d := DrawIds(o);
      if d.Err? { return Err(d.error); }
      var (id, sc) := d.value;
      events := events + [Event(id, cpu, None, Kind.Fence(kind), o, 0, None, None, sc, None)];
      r := Ok(id);
    }
  }
}

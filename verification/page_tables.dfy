/** Four-level paging as the processor walks it (Intel SDM volume 3A, sections 4.5
    and 4.6), and the tables the runtime builds. */
module PageTables {
  import opened Wrappers
  import opened Bits

  const PRESENT := 1
  const WRITE := 2
  const USER := 4
  const HUGE := 0x80
  const NX := 0x8000_0000_0000_0000
  const PAGE := 0x1000
  const HUGE_PAGE := 0x20_0000
  const GIB := 0x4000_0000
  const PML4_SPAN := 0x80_0000_0000
  const PHYSICAL_LIMIT := 0x10_0000_0000_0000
  const USER_BASE := 0x4000_0000_0000
  const USER_STACK := 0x4000_0000_1000
  const SHOOTDOWN_ADDRESS := 0x4080_0000_0000

  // ---------------------------------------------------------------------
  // The hardware walk

  // `Outside` is a walk that reads a table the memory does not hold.
  datatype Access = Fault | Outside | Page(physical: nat, writable: bool, user: bool, noExecute: bool)

  type Memory = map<nat, seq<nat>>

  predicate Present(e: nat) { e % 2 == 1 }

  predicate Writable(e: nat) { e / 2 % 2 == 1 }

  predicate UserBit(e: nat) { e / 4 % 2 == 1 }

  predicate Large(e: nat) { e / 0x80 % 2 == 1 }

  predicate NoExecute(e: nat) { e / NX % 2 == 1 }

  // Bits 51 down to the size of the frame.
  function Frame(e: nat, size: nat): nat
    requires size > 0
  {
    e % PHYSICAL_LIMIT / size * size
  }

  predicate Canonical(a: nat) {
    a < 0x8000_0000_0000 || 0xFFFF_8000_0000_0000 <= a < 0x1_0000_0000_0000_0000
  }

  function Entry(mem: Memory, base: nat, index: nat): Option<nat> {
    if base in mem && index < |mem[base]| then Some(mem[base][index]) else None
  }

  // The walk from a table at `level` (4 to 1) with the rights so far.
  function WalkFrom(mem: Memory, base: nat, level: nat, a: nat, w: bool, u: bool, nx: bool): Access
    requires 1 <= level <= 4
    decreases level
  {
    var span := Span(level);
    match Entry(mem, base, a / span % 512)
    case None => Outside
    case Some(e) =>
      var w', u', nx' := w && Writable(e), u && UserBit(e), nx || NoExecute(e);
      if !Present(e) then Fault
      else if level == 4 && Large(e) then Fault
      else if level == 1 || Large(e) then Page(Frame(e, span) + a % span, w', u', nx')
      else WalkFrom(mem, Frame(e, PAGE), level - 1, a, w', u', nx')
  }

  // Bytes one entry of a table at this level covers.
  function Span(level: nat): (s: nat)
    requires 1 <= level <= 4
    ensures s > 0
  {
    if level == 4 then PML4_SPAN else if level == 3 then GIB else if level == 2 then HUGE_PAGE else PAGE
  }

  function Walk(mem: Memory, cr3: nat, a: nat): Access {
    if Canonical(a) then WalkFrom(mem, cr3, 4, a, true, true, false) else Fault
  }

  // ---------------------------------------------------------------------
  // Where the linker puts the tables and pages

  datatype Placement = Placement(
    pml4: nat, identityPdpt: nat, identityPds: nat,
    userPdpt: nat, userPd: nat, userPt: nat,
    shootPdpt: nat, shootPd: nat, shootPt: nat,
    userCode: nat, userStack: nat, testA: nat, testB: nat)

  function TableBases(at: Placement): seq<nat> {
    [at.pml4, at.identityPdpt, at.userPdpt, at.userPd, at.userPt, at.shootPdpt, at.shootPd, at.shootPt,
     at.identityPds, at.identityPds + PAGE, at.identityPds + 2 * PAGE, at.identityPds + 3 * PAGE]
  }

  predicate Aligned(base: nat) {
    base % PAGE == 0 && base + PAGE <= PHYSICAL_LIMIT
  }

  // Distinct page-aligned tables and pages in physical memory.
  predicate Placed(at: Placement) {
    var bs := TableBases(at);
    && (forall i, j :: 0 <= i < j < |bs| ==> bs[i] != bs[j])
    && (forall i :: 0 <= i < |bs| ==> Aligned(bs[i]))
    && Aligned(at.userCode) && Aligned(at.userStack) && Aligned(at.testA) && Aligned(at.testB)
  }

  // What every address means once the tables are built; `test` is the shootdown page.
  function Meaning(at: Placement, test: nat, a: nat): Access {
    if a < 4 * GIB then Page(a, true, false, false)
    else if USER_BASE <= a < USER_BASE + PAGE then Page(at.userCode + (a - USER_BASE), false, true, false)
    else if USER_STACK <= a < USER_STACK + PAGE then Page(at.userStack + (a - USER_STACK), true, true, true)
    else if SHOOTDOWN_ADDRESS <= a < SHOOTDOWN_ADDRESS + PAGE then
      Page(test + (a - SHOOTDOWN_ADDRESS), true, false, true)
    else Fault
  }

  // ---------------------------------------------------------------------
  // The entries of the finished tables

  function Pml4At(at: Placement, i: int): nat {
    if i == 0 then at.identityPdpt + 3
    else if i == 128 then at.userPdpt + 7
    else if i == 129 then at.shootPdpt + 3
    else 0
  }

  function IdentityPdptAt(at: Placement, i: int): nat {
    if 0 <= i < 4 then at.identityPds + i * PAGE + 3 else 0
  }

  function FirstOnly(e: nat, i: int): nat {
    if i == 0 then e else 0
  }

  function UserPtAt(at: Placement, i: int): nat {
    if i == 0 then at.userCode + 5 else if i == 1 then at.userStack + 7 + NX else 0
  }

  // Entry i of table t, in the order of `TableBases`.
  function EntryOf(at: Placement, test: nat, t: int, i: int): nat {
    if t == 0 then Pml4At(at, i)
    else if t == 1 then IdentityPdptAt(at, i)
    else if t == 2 then FirstOnly(at.userPd + 7, i)
    else if t == 3 then FirstOnly(at.userPt + 7, i)
    else if t == 4 then UserPtAt(at, i)
    else if t == 5 then FirstOnly(at.shootPd + 3, i)
    else if t == 6 then FirstOnly(at.shootPt + 3, i)
    else if t == 7 then FirstOnly(test + 3 + NX, i)
    else IdentityPdAt(t - 8, i)
  }

  function IdentityPdAt(j: int, i: int): nat {
    if j < 0 || i < 0 then 0 else (j * 512 + i) * HUGE_PAGE + 0x83
  }

  ghost predicate Built(mem: Memory, at: Placement, test: nat) {
    forall t, i :: 0 <= t < 12 && 0 <= i < 512 ==> Entry(mem, TableBases(at)[t], i) == Some(EntryOf(at, test, t, i))
  }

  lemma Regroup(k: nat, n: nat, m: nat, d: nat, r: nat)
    ensures k * (2 * n * m) + (d * m + r) == (2 * (k * n) + d) * m + r
  {
  }

  // Adding a multiple of 2m does not change the bit of weight m.
  lemma DropHigh(k: nat, n: nat, m: nat, f: nat)
    requires m > 0
    ensures (k * (2 * n * m) + f) / m % 2 == f / m % 2
  {
    var d, r := f / m, f % m;
    assert f == d * m + r;
    Regroup(k, n, m, d, r);
    DivModUnique(k * (2 * n * m) + f, m, 2 * (k * n) + d, r);
    DivModUnique(2 * (k * n) + d, 2, k * n + d / 2, d % 2);
  }

  // The flag bits of an entry are those of its low twelve bits.
  lemma LowFlags(k: nat, f: nat)
    ensures var e := k * PAGE + f;
      && e % 2 == f % 2 && e / 2 % 2 == f / 2 % 2 && e / 4 % 2 == f / 4 % 2 && e / 0x80 % 2 == f / 0x80 % 2
  {
    DropHigh(k, 0x800, 1, f);
    DropHigh(k, 0x400, 2, f);
    DropHigh(k, 0x200, 4, f);
    DropHigh(k, 0x10, 0x80, f);
  }

  lemma FrameOf(k: nat, size: nat, f: nat)
    requires size > 0 && f < size && k * size + f < PHYSICAL_LIMIT
    ensures Frame(k * size + f, size) == k * size && !NoExecute(k * size + f)
  {
    DivModUnique(k * size + f, size, k, f);
    DivModUnique(k * size + f, PHYSICAL_LIMIT, 0, k * size + f);
    DivModUnique(k * size + f, NX, 0, k * size + f);
  }

  // The no-execute bit is above everything else an entry holds.
  lemma NoExecuteBit(e: nat, size: nat)
    requires e < PHYSICAL_LIMIT && size > 0
    ensures NoExecute(e + NX) && Frame(e + NX, size) == Frame(e, size)
    ensures (e + NX) % 2 == e % 2 && (e + NX) / 2 % 2 == e / 2 % 2 && (e + NX) / 4 % 2 == e / 4 % 2
    ensures (e + NX) / 0x80 % 2 == e / 0x80 % 2
  {
    LowFlags(NX / PAGE, e);
    assert NX / PAGE * PAGE == NX;
    DivModUnique(e + NX, PHYSICAL_LIMIT, 0x800, e);
    DivModUnique(e, PHYSICAL_LIMIT, 0, e);
    DivModUnique(e + NX, NX, 1, e);
  }

  // A link to a lower table: present, writable, not large, executable.
  lemma LinkEntry(base: nat, flags: nat)
    requires Aligned(base) && flags in {3, 7}
    ensures var e := base + flags;
      && Present(e) && Writable(e) && (UserBit(e) <==> flags == 7) && !Large(e) && !NoExecute(e)
      && Frame(e, PAGE) == base
  {
    var k := base / PAGE;
    assert base == k * PAGE;
    LowFlags(k, flags);
    FrameOf(k, PAGE, flags);
    hide Frame, NoExecute;
  }

  lemma LeafEntry(base: nat, flags: nat, nx: bool)
    requires Aligned(base) && flags in {3, 5, 7}
    ensures var e := base + flags + if nx then NX else 0;
      && Present(e) && (Writable(e) <==> flags != 5) && (UserBit(e) <==> flags != 3) && (NoExecute(e) <==> nx)
      && Frame(e, PAGE) == base
  {
    var k := base / PAGE;
    assert base == k * PAGE;
    LowFlags(k, flags);
    FrameOf(k, PAGE, flags);
    NoExecuteBit(base + flags, PAGE);
    hide Frame, NoExecute;
  }

  lemma HugeEntry(n: nat)
    requires n < 2048
    ensures var e := n * HUGE_PAGE + 0x83;
      && Present(e) && Writable(e) && !UserBit(e) && Large(e) && !NoExecute(e)
      && Frame(e, HUGE_PAGE) == n * HUGE_PAGE
  {
    LowFlags(n * 0x200, 0x83);
    FrameOf(n, HUGE_PAGE, 0x83);
    hide Frame, NoExecute;
  }

  lemma Missing(mem: Memory, base: nat, level: nat, a: nat, w: bool, u: bool, nx: bool)
    requires 1 <= level <= 4 && Entry(mem, base, a / Span(level) % 512) == Some(0)
    ensures WalkFrom(mem, base, level, a, w, u, nx) == Fault
  {
  }

  // ---------------------------------------------------------------------
  // What the walk finds

  lemma Distribute(q: nat, d: nat, s: nat)
    ensures (512 * q + d) * s == q * (512 * s) + d * s
    ensures d < 512 ==> d * s <= 511 * s
  {
  }

  // An index and the offset below it.
  lemma Index(a: nat, s: nat)
    requires s > 0
    ensures a / s % 512 * s + a % s == a % (512 * s)
  {
    var n, m := a / s, a % s;
    var q, d := n / 512, n % 512;
    assert a == n * s + m && n == 512 * q + d;
    Distribute(q, d, s);
    DivModUnique(a, 512 * s, q, d * s + m);
  }

  lemma LowAddress(a: nat)
    requires a < PML4_SPAN
    ensures a / PML4_SPAN % 512 == 0
    ensures var j, i := a / GIB % 512, a / HUGE_PAGE % 512;
      && (j < 4 <==> a < 4 * GIB)
      && (j * 512 + i) * HUGE_PAGE + a % HUGE_PAGE == a
  {
    Index(a, GIB);
    Index(a, HUGE_PAGE);
    DivModUnique(a, PML4_SPAN, 0, a);
  }

  // An address in a 512 GiB region, split by its offset.
  lemma RegionAddress(a: nat, q: nat)
    requires q < 256 && q * PML4_SPAN <= a < (q + 1) * PML4_SPAN
    ensures a / PML4_SPAN % 512 == q
    ensures var o, i3, i2, i1 := a - q * PML4_SPAN, a / GIB % 512, a / HUGE_PAGE % 512, a / PAGE % 512;
      && (o < HUGE_PAGE <==> i3 == 0 && i2 == 0)
      && (o < HUGE_PAGE ==> o == i1 * PAGE + a % PAGE)
      && 0 <= a % PAGE < PAGE
  {
    var o := a - q * PML4_SPAN;
    Index(a, GIB);
    Index(a, HUGE_PAGE);
    Index(a, PAGE);
    DivModUnique(a, PML4_SPAN, q, o);
    var i3, i2 := a / GIB % 512, a / HUGE_PAGE % 512;
    assert o == i3 * GIB + a % GIB && a % GIB == i2 * HUGE_PAGE + a % HUGE_PAGE;
  }

  // The walk through a present link goes on in the table it names.
  lemma Through(mem: Memory, base: nat, level: nat, a: nat, next: nat, flags: nat, w: bool, u: bool, nx: bool)
    requires 2 <= level <= 4 && Aligned(next) && flags in {3, 7}
    requires Entry(mem, base, a / Span(level) % 512) == Some(next + flags)
    ensures WalkFrom(mem, base, level, a, w, u, nx) == WalkFrom(mem, next, level - 1, a, w, u && flags == 7, nx)
  {
    LinkEntry(next, flags);
    hide Frame, Present, Writable, UserBit, Large, NoExecute, Entry, Span;
  }

  lemma At(mem: Memory, at: Placement, test: nat, t: nat, i: nat)
    requires Built(mem, at, test) && t < 12 && i < 512
    ensures Entry(mem, TableBases(at)[t], i) == Some(EntryOf(at, test, t, i))
  {
  }

  lemma IdentityPd(at: Placement, j: nat)
    requires Placed(at) && j < 4
    ensures Aligned(at.identityPds + j * PAGE)
  {
    var bs := TableBases(at);
    assert bs[8 + j] == at.identityPds + j * PAGE;
  }

  lemma TablesAligned(at: Placement)
    requires Placed(at)
    ensures Aligned(at.identityPdpt) && Aligned(at.userPdpt) && Aligned(at.userPd) && Aligned(at.userPt)
    ensures Aligned(at.shootPdpt) && Aligned(at.shootPd) && Aligned(at.shootPt)
  {
    var bs := TableBases(at);
    assert Aligned(bs[1]) && Aligned(bs[2]) && Aligned(bs[3]) && Aligned(bs[4]) && Aligned(bs[5])
        && Aligned(bs[6]) && Aligned(bs[7]);
  }

  lemma HugeLeaf(mem: Memory, base: nat, n: nat, a: nat, w: bool, u: bool, nx: bool)
    requires n < 2048 && Entry(mem, base, a / HUGE_PAGE % 512) == Some(n * HUGE_PAGE + 0x83)
    ensures WalkFrom(mem, base, 2, a, w, u, nx) == Page(n * HUGE_PAGE + a % HUGE_PAGE, w, false, nx)
  {
    HugeEntry(n);
    hide Frame, Present, Writable, UserBit, Large, NoExecute, Entry;
  }

  lemma Leaf(mem: Memory, base: nat, frame: nat, flags: nat, noExec: bool, a: nat, w: bool, u: bool, nx: bool)
    requires Aligned(frame) && flags in {3, 5, 7}
    requires Entry(mem, base, a / PAGE % 512) == Some(frame + flags + if noExec then NX else 0)
    ensures WalkFrom(mem, base, 1, a, w, u, nx) == Page(frame + a % PAGE, w && flags != 5, u && flags != 3, nx || noExec)
  {
    LeafEntry(frame, flags, noExec);
    hide Frame, Present, Writable, UserBit, Large, NoExecute, Entry;
  }

  // Below 512 GiB: the first 4 GiB map to themselves for the supervisor.
  lemma IdentityWalk(mem: Memory, at: Placement, test: nat, a: nat)
    requires Placed(at) && Built(mem, at, test) && a < PML4_SPAN
    ensures Walk(mem, at.pml4, a) == if a < 4 * GIB then Page(a, true, false, false) else Fault
  {
    TablesAligned(at);
    LowAddress(a);
    hide Aligned, Entry, WalkFrom, Placed, Built;
    At(mem, at, test, 0, a / PML4_SPAN % 512);
    Through(mem, at.pml4, 4, a, at.identityPdpt, 3, true, true, false);
    var j := a / GIB % 512;
    if j < 4 {
      IdentityGigabyte(mem, at, test, a, j, a / HUGE_PAGE % 512);
    } else {
      At(mem, at, test, 1, j);
      Missing(mem, at.identityPdpt, 3, a, true, false, false);
    }
  }

  // The walk through one of the four gigabyte tables.
  lemma IdentityGigabyte(mem: Memory, at: Placement, test: nat, a: nat, j: nat, i: nat)
    requires Placed(at) && Built(mem, at, test) && j == a / GIB % 512 && j < 4 && i == a / HUGE_PAGE % 512
    ensures WalkFrom(mem, at.identityPdpt, 3, a, true, false, false)
         == Page((j * 512 + i) * HUGE_PAGE + a % HUGE_PAGE, true, false, false)
  {
    IdentityPd(at, j);
    var pd := at.identityPds + j * PAGE;
    assert TableBases(at)[8 + j] == pd;
    hide Aligned, Entry, WalkFrom, Placed, Built, TableBases;
    At(mem, at, test, 1, j);
    GigabyteTable(at);
    Through(mem, at.identityPdpt, 3, a, pd, 3, true, false, false);
    At(mem, at, test, 8 + j, i);
    HugeLeaf(mem, pd, j * 512 + i, a, true, false, false);
  }

  lemma GigabyteTable(at: Placement)
    ensures TableBases(at)[1] == at.identityPdpt
  {
  }

  // The 512 GiB region of user space: its first two pages.
  lemma UserWalk(mem: Memory, at: Placement, test: nat, a: nat)
    requires Placed(at) && Built(mem, at, test) && USER_BASE <= a < USER_BASE + PML4_SPAN
    ensures Walk(mem, at.pml4, a) ==
      if a < USER_BASE + PAGE then Page(at.userCode + (a - USER_BASE), false, true, false)
      else if a < USER_STACK + PAGE then Page(at.userStack + (a - USER_STACK), true, true, true)
      else Fault
  {
    TablesAligned(at);
    RegionAddress(a, 128);
    assert Aligned(at.userCode) && Aligned(at.userStack);
    hide Aligned, Entry, WalkFrom, Placed, Built;
    var i3, i2, i1 := a / GIB % 512, a / HUGE_PAGE % 512, a / PAGE % 512;
    At(mem, at, test, 0, a / PML4_SPAN % 512);
    Through(mem, at.pml4, 4, a, at.userPdpt, 7, true, true, false);
    At(mem, at, test, 2, i3);
    if i3 != 0 {
      Missing(mem, at.userPdpt, 3, a, true, true, false);
    } else {
      Through(mem, at.userPdpt, 3, a, at.userPd, 7, true, true, false);
      At(mem, at, test, 3, i2);
      if i2 != 0 {
        Missing(mem, at.userPd, 2, a, true, true, false);
      } else {
        Through(mem, at.userPd, 2, a, at.userPt, 7, true, true, false);
        UserPages(mem, at, test, a, i1);
      }
    }
  }

  // The last table of the user region.
  lemma UserPages(mem: Memory, at: Placement, test: nat, a: nat, i: nat)
    requires Placed(at) && Built(mem, at, test) && i == a / PAGE % 512
    ensures WalkFrom(mem, at.userPt, 1, a, true, true, false) ==
      if i == 0 then Page(at.userCode + a % PAGE, false, true, false)
      else if i == 1 then Page(at.userStack + a % PAGE, true, true, true)
      else Fault
  {
    TablesAligned(at);
    assert Aligned(at.userCode) && Aligned(at.userStack);
    hide Aligned, Entry, WalkFrom, Placed, Built;
    At(mem, at, test, 4, i);
    if i == 0 {
      Leaf(mem, at.userPt, at.userCode, 5, false, a, true, true, false);
    } else if i == 1 {
      Leaf(mem, at.userPt, at.userStack, 7, true, a, true, true, false);
    } else {
      Missing(mem, at.userPt, 1, a, true, true, false);
    }
  }

  // The 512 GiB region of the shootdown page.
  lemma ShootdownWalk(mem: Memory, at: Placement, test: nat, a: nat)
    requires Placed(at) && Aligned(test) && Built(mem, at, test)
    requires SHOOTDOWN_ADDRESS <= a < SHOOTDOWN_ADDRESS + PML4_SPAN
    ensures Walk(mem, at.pml4, a) ==
      if a < SHOOTDOWN_ADDRESS + PAGE then Page(test + (a - SHOOTDOWN_ADDRESS), true, false, true) else Fault
  {
    TablesAligned(at);
    RegionAddress(a, 129);
    hide Aligned, Entry, WalkFrom, Placed, Built;
    var i3, i2, i1 := a / GIB % 512, a / HUGE_PAGE % 512, a / PAGE % 512;
    At(mem, at, test, 0, a / PML4_SPAN % 512);
    Through(mem, at.pml4, 4, a, at.shootPdpt, 3, true, true, false);
    At(mem, at, test, 5, i3);
    if i3 != 0 {
      Missing(mem, at.shootPdpt, 3, a, true, false, false);
    } else {
      Through(mem, at.shootPdpt, 3, a, at.shootPd, 3, true, false, false);
      At(mem, at, test, 6, i2);
      if i2 != 0 {
        Missing(mem, at.shootPd, 2, a, true, false, false);
      } else {
        Through(mem, at.shootPd, 2, a, at.shootPt, 3, true, false, false);
        At(mem, at, test, 7, i1);
        if i1 == 0 {
          Leaf(mem, at.shootPt, test, 3, true, a, true, false, false);
        } else {
          Missing(mem, at.shootPt, 1, a, true, false, false);
        }
      }
    }
  }

  // Every other region has no top-level entry.
  lemma NothingElse(mem: Memory, at: Placement, test: nat, a: nat)
    requires Built(mem, at, test)
    requires PML4_SPAN <= a < USER_BASE || SHOOTDOWN_ADDRESS + PML4_SPAN <= a
    ensures Walk(mem, at.pml4, a) == Fault
  {
    if Canonical(a) {
      var i := a / PML4_SPAN % 512;
      assert i != 0 && i != 128 && i != 129 by { TopIndex(a); }
      At(mem, at, test, 0, i);
      Missing(mem, at.pml4, 4, a, true, true, false);
    }
  }

  lemma TopIndex(a: nat)
    requires Canonical(a) && (PML4_SPAN <= a < USER_BASE || SHOOTDOWN_ADDRESS + PML4_SPAN <= a)
    ensures a / PML4_SPAN % 512 != 0 && a / PML4_SPAN % 512 != 128 && a / PML4_SPAN % 512 != 129
  {
    var q := a / PML4_SPAN;
    if a < 0x8000_0000_0000 {
      assert 1 <= q < 128 || 130 <= q < 256;
    } else {
      assert 0x1FF_FF00 <= q < 0x200_0000;
      DivModUnique(q, 512, 0xFFFF, q - 0xFFFF * 512);
    }
  }

  /** The walk of the finished tables, for every address and every placement. */
  lemma WalkIsMeaning(mem: Memory, at: Placement, test: nat, a: nat)
    requires Placed(at) && Aligned(test) && Built(mem, at, test)
    ensures Walk(mem, at.pml4, a) == Meaning(at, test, a)
  {
    hide Placed, Built, Walk;
    if a < PML4_SPAN {
      IdentityWalk(mem, at, test, a);
    } else if USER_BASE <= a < USER_BASE + PML4_SPAN {
      UserWalk(mem, at, test, a);
    } else if SHOOTDOWN_ADDRESS <= a < SHOOTDOWN_ADDRESS + PML4_SPAN {
      ShootdownWalk(mem, at, test, a);
    } else {
      NothingElse(mem, at, test, a);
    }
  }

  // ---------------------------------------------------------------------
  // Building the tables

  lemma SetFlag(x: nat, n: nat, flag: nat)
    requires flag == Pow2(n) && x / flag % 2 == 0
    ensures Or(x, flag) == x + flag
  {
    BitIsQuotient(x, n);
    OrSetsBit(x, n);
  }

  lemma {:induction false} BitIsQuotient(x: nat, n: nat)
    ensures Bit(x, n) <==> x / Pow2(n) % 2 == 1
    decreases n
  {
    if n > 0 {
      BitIsQuotient(x / 2, n - 1);
      HalveTwice(x, Pow2(n - 1));
    }
  }

  lemma HalveTwice(x: nat, m: nat)
    requires m > 0
    ensures x / 2 / m == x / (2 * m)
  {
    HalfMod(x, m);
    var q, r := x / 2 / m, x / 2 % m;
    assert x / 2 == q * m + r;
    assert x == q * (2 * m) + (2 * r + x % 2);
    DivModUnique(x, 2 * m, q, 2 * r + x % 2);
  }

  lemma Weights()
    ensures Pow2(0) == PRESENT && Pow2(1) == WRITE && Pow2(2) == USER && Pow2(7) == HUGE
    ensures Pow2(21) == HUGE_PAGE && Pow2(63) == NX
  {
    Pow2_64();
    assert Pow2(8) == 256 && Pow2(16) == 65536;
    assert Pow2(64) == 2 * Pow2(63);
  }

  // OR-ing flags into a page-aligned address adds them.
  lemma FlagWords(base: nat)
    requires base % PAGE == 0
    ensures Or(Or(base, PRESENT), WRITE) == base + 3
    ensures Or(Or(Or(base, PRESENT), WRITE), USER) == base + 7
    ensures Or(Or(base, PRESENT), USER) == base + 5
    ensures Or(Or(Or(base, PRESENT), WRITE), HUGE) == base + 0x83
  {
    Weights();
    hide Pow2, Or;
    var k := base / PAGE;
    assert base == k * PAGE;
    LowFlags(k, 0);
    LowFlags(k, 1);
    LowFlags(k, 3);
    SetFlag(base, 0, PRESENT);
    SetFlag(base + 1, 1, WRITE);
    SetFlag(base + 3, 2, USER);
    SetFlag(base + 1, 2, USER);
    SetFlag(base + 3, 7, HUGE);
  }

  // The entry words, as the source combines them.
  function LinkWord(base: nat): (e: nat)
    requires base % PAGE == 0
    ensures e == base + 3
  {
    FlagWords(base);
    Or(Or(base, PRESENT), WRITE)
  }

  function UserLinkWord(base: nat): (e: nat)
    requires base % PAGE == 0
    ensures e == base + 7
  {
    FlagWords(base);
    Or(Or(Or(base, PRESENT), WRITE), USER)
  }

  function CodeWord(base: nat): (e: nat)
    requires base % PAGE == 0
    ensures e == base + 5
  {
    FlagWords(base);
    Or(Or(base, PRESENT), USER)
  }

  function HugeWord(n: nat): (e: nat)
    ensures e == n * HUGE_PAGE + 0x83
  {
    Weights();
    FlagWords(Shl(n, 21));
    Or(Or(Or(Shl(n, 21), PRESENT), WRITE), HUGE)
  }

  function NoExecuteWord(e: nat): (r: nat)
    requires e < NX
    ensures r == e + NX
  {
    Weights();
    DivModUnique(e, NX, 0, e);
    SetFlag(e, 63, NX);
    Or(e, NX)
  }

  // The part of the setup that writes an entry: identity map, user pages, shootdown page.
  function Part(t: int, i: int): nat {
    if t == 0 then (if i == 0 then 1 else if i == 128 then 2 else 3)
    else if t == 1 || t >= 8 then 1
    else if t <= 4 then 2
    else 3
  }

  // The twelve statically allocated tables, in the order of `TableBases`.
  class Tables {
    const at: Placement
    const tables: array2<nat>

    constructor (at: Placement)
      requires Placed(at)
      ensures this.at == at && Valid() && Filled(0) && fresh(tables)
    {
      this.at := at;
      tables := new nat[12, 512]((t, i) => 0);
    }

    ghost predicate Valid() {
      Placed(at) && tables.Length0 == 12 && tables.Length1 == 512
    }

    // After `stage` of the three parts the entries of those parts are written and the rest is zero.
    ghost predicate Filled(stage: nat)
      reads tables
      requires Valid()
    {
      forall t, i :: 0 <= t < 12 && 0 <= i < 512 ==>
        tables[t, i] == if Part(t, i) <= stage then EntryOf(at, at.testA, t, i) else 0
    }

    ghost function Row(t: nat): (r: seq<nat>)
      reads tables
      requires Valid() && t < 12
      ensures |r| == 512 && forall i :: 0 <= i < 512 ==> r[i] == tables[t, i]
    {
      seq(512, i requires 0 <= i < 512 reads tables => tables[t, i])
    }

    // The tables where the processor sees them.
    ghost function InMemory(): (mem: Memory)
      reads tables
      requires Valid()
      ensures forall t, i :: 0 <= t < 12 && 0 <= i < 512 ==> Entry(mem, TableBases(at)[t], i) == Some(tables[t, i])
    {
      map t | 0 <= t < 12 :: TableBases(at)[t] := Row(t)
    }

    // The inner loop: one gigabyte of large pages.
    method FillGigabyte(j: nat)
      requires Valid() && j < 4
      modifies tables
      ensures forall t, i :: 0 <= t < 12 && 0 <= i < 512 ==>
        tables[t, i] == if t == 8 + j then IdentityPdAt(j, i) else old(tables[t, i])
    {
      hide HugeWord, Placed;
      for entry := 0 to 512
        invariant forall t, i :: 0 <= t < 12 && 0 <= i < 512 ==>
          tables[t, i] == if t == 8 + j && i < entry then IdentityPdAt(j, i) else old(tables[t, i])
      {
        tables[8 + j, entry] := HugeWord(j * 512 + entry);
      }
    }

    // The outer loop: four gigabytes.
    method FillIdentity()
      requires Valid() && Filled(0)
      modifies tables
      ensures Filled(1)
    {
      TablesAligned(at);
      hide LinkWord, Placed, TableBases;
      tables[0, 0] := LinkWord(at.identityPdpt);
      for j := 0 to 4
        invariant forall t, i :: 0 <= t < 12 && 0 <= i < 512 ==>
          tables[t, i] == if (t == 0 && i == 0) || (t == 1 && i < j) || 8 <= t < 8 + j
            then EntryOf(at, at.testA, t, i) else 0
      {
        IdentityPd(at, j);
        tables[1, j] := LinkWord(at.identityPds + j * PAGE);
        FillGigabyte(j);
      }
    }

    method FillUser()
      requires Valid() && Filled(1)
      modifies tables
      ensures Filled(2)
    {
      assert Aligned(at.userCode) && Aligned(at.userStack);
      TablesAligned(at);
      hide UserLinkWord, CodeWord, NoExecuteWord, Placed, TableBases;
      tables[0, USER_BASE / PML4_SPAN % 512] := UserLinkWord(at.userPdpt);
      tables[2, 0] := UserLinkWord(at.userPd);
      tables[3, 0] := UserLinkWord(at.userPt);
      tables[4, 0] := CodeWord(at.userCode);
      tables[4, 1] := NoExecuteWord(UserLinkWord(at.userStack));
    }

    method FillShootdown()
      requires Valid() && Filled(2)
      modifies tables
      ensures Filled(3)
    {
      assert Aligned(at.testA);
      TablesAligned(at);
      hide LinkWord, NoExecuteWord, Placed, TableBases;
      tables[0, SHOOTDOWN_ADDRESS / PML4_SPAN % 512] := LinkWord(at.shootPdpt);
      tables[5, 0] := LinkWord(at.shootPd);
      tables[6, 0] := LinkWord(at.shootPt);
      tables[7, 0] := NoExecuteWord(LinkWord(at.testA));
    }

    /** `setup_page_tables`: afterwards every address means what it should. */
    method Setup() returns (cr3: nat)
      requires Valid() && Filled(0)
      modifies tables
      ensures cr3 == at.pml4 && Built(InMemory(), at, at.testA)
      ensures forall a: nat :: Walk(InMemory(), cr3, a) == Meaning(at, at.testA, a)
    {
      FillIdentity();
      FillUser();
      FillShootdown();
      Finished(at.testA);
      cr3 := at.pml4;
    }

    /** Before the shootdown the entry is pointed at the other test page: only that page moves. */
    method Remap()
      requires Valid() && Built(InMemory(), at, at.testA)
      modifies tables
      ensures forall a: nat :: Walk(InMemory(), at.pml4, a) == Meaning(at, at.testB, a)
    {
      assert Aligned(at.testB);
      hide LinkWord, NoExecuteWord, Placed;
      tables[7, 0] := NoExecuteWord(LinkWord(at.testB));
      Finished(at.testB);
    }

    lemma Finished(test: nat)
      requires Valid() && Aligned(test)
      requires forall t, i :: 0 <= t < 12 && 0 <= i < 512 ==> tables[t, i] == EntryOf(at, test, t, i)
      ensures Built(InMemory(), at, test)
      ensures forall a: nat :: Walk(InMemory(), at.pml4, a) == Meaning(at, test, a)
    {
      forall a: nat
        ensures Walk(InMemory(), at.pml4, a) == Meaning(at, test, a)
      {
        WalkIsMeaning(InMemory(), at, test, a);
      }
    }
  }
}

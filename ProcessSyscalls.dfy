/**
 * The memory and time syscalls of os/src/syscall/process.rs: `sys_mmap`,
 * `sys_munmap` and the seconds/microseconds split of `sys_get_time`.
 *
 * Both memory syscalls validate the whole page range first and only then
 * change the address space, through `map_all` / `unmap_all`.  The current
 * task is passed explicitly.
 */
module ProcessSyscalls {
  import opened TaskMemory

  /** `PAGE_SIZE` (config.rs is not part of this model) */
  const PAGE_SIZE: nat := 4096

  /** `VirtAddr::floor`: the page holding va */
  function Floor(va: nat): (vpn: nat)
    ensures vpn * PAGE_SIZE <= va < (vpn + 1) * PAGE_SIZE
  {
    va / PAGE_SIZE
  }

  /** `VirtAddr::ceil`: the first page boundary at or above va, as a page number */
  function Ceil(va: nat): (vpn: nat)
    ensures va <= vpn * PAGE_SIZE
    ensures vpn == 0 || (vpn - 1) * PAGE_SIZE < va
  {
    (va + PAGE_SIZE - 1) / PAGE_SIZE
  }

  /** `port & !0x7 != 0 || port & 0x7 == 0`: a bit beyond R/W/X, or none of them */
  predicate PortRejected(port: nat): (bad: bool)
    ensures bad <==> !(1 <= port <= 7)
  {
    port / 8 != 0 || port % 8 == 0
  }

  /** `start & (PAGE_SIZE - 1) != 0` */
  predicate Misaligned(start: nat): (bad: bool)
    ensures !bad <==> exists k: nat | k <= start :: start == k * PAGE_SIZE
  {
    assert start == Floor(start) * PAGE_SIZE + start % PAGE_SIZE;
    start % PAGE_SIZE != 0
  }

  /** the value `sys_mmap` hands to `map_all`: `port << 1 | 1 << 4`, for an accepted port */
  function MmapPort(port: nat): nat
    requires 1 <= port <= 7
  {
    port * 2 + 16
  }

  /** A syscall's return value together with the address space it leaves. */
  datatype MemOutcome = MemOutcome(ret: int, pages: map<nat, Pte>)

  /** what `sys_mmap` does: reject, refuse an occupied range, or map [floor, ceil) */
  ghost function MmapSpec(pages: map<nat, Pte>, start: nat, len: nat, port: nat): MemOutcome {
    if PortRejected(port) || Misaligned(start) then MemOutcome(-1, pages)
    else if exists vpn | Floor(start) <= vpn < Ceil(start + len) :: Mapped(pages, vpn) then MemOutcome(-1, pages)
    else MemOutcome(0, Fill(pages, Floor(start), Ceil(start + len), Pte(true, PermissionOf(MmapPort(port)))))
  }

  /**
   * what `sys_munmap` does as written: its validation loop runs up to and
   * including page `ceil(start + len)`, one page beyond the range it unmaps
   */
  ghost function MunmapSpec(pages: map<nat, Pte>, start: nat, len: nat): MemOutcome {
    if Misaligned(start) then MemOutcome(-1, pages)
    else if exists vpn | Floor(start) <= vpn <= Ceil(start + len) :: !Mapped(pages, vpn) then MemOutcome(-1, pages)
    else MemOutcome(0, Fill(pages, Floor(start), Ceil(start + len), EMPTY_PTE))
  }

  /** what `sys_munmap` evidently means to do: validate exactly the pages it unmaps */
  ghost function MunmapCorrectedSpec(pages: map<nat, Pte>, start: nat, len: nat): MemOutcome {
    if Misaligned(start) then MemOutcome(-1, pages)
    else if exists vpn | Floor(start) <= vpn < Ceil(start + len) :: !Mapped(pages, vpn) then MemOutcome(-1, pages)
    else MemOutcome(0, Fill(pages, Floor(start), Ceil(start + len), EMPTY_PTE))
  }

  lemma FloorBelowCeil(start: nat, len: nat)
    ensures Floor(start) <= Ceil(start + len)
  {
  }

  /** `sys_mmap` */
  method SysMmap(task: TaskInner, start: nat, len: nat, port: nat) returns (r: int)
    modifies task`pages
    ensures MemOutcome(r, task.pages) == MmapSpec(old(task.pages), start, len, port)
  {
    if PortRejected(port) || Misaligned(start) {
      return -1;
    }
    var startVpn := Floor(start);
    var endVpn := Ceil(start + len);
    FloorBelowCeil(start, len);
    while startVpn < endVpn
      invariant Floor(start) <= startVpn <= endVpn
      invariant forall vpn | Floor(start) <= vpn < startVpn :: !Mapped(task.pages, vpn)
    {
      if task.Check(startVpn) {
        return -1;
      }
      startVpn := startVpn + 1;
    }
    startVpn := Floor(start);
    task.MapAll(startVpn, endVpn, MmapPort(port));
    return 0;
  }

  /** `sys_munmap` as written, validating through page `ceil(start + len)` inclusive */
  method SysMunmap(task: TaskInner, start: nat, len: nat) returns (r: int)
    modifies task`pages
    ensures MemOutcome(r, task.pages) == MunmapSpec(old(task.pages), start, len)
  {
    if Misaligned(start) {
      return -1;
    }
    var startVpn := Floor(start);
    var endVpn := Ceil(start + len);
    FloorBelowCeil(start, len);
    while startVpn <= endVpn
      invariant Floor(start) <= startVpn <= endVpn + 1
      invariant forall vpn | Floor(start) <= vpn < startVpn :: Mapped(task.pages, vpn)
    {
      if !task.Check(startVpn) {
        return -1;
      }
      startVpn := startVpn + 1;
    }
    startVpn := Floor(start);
    task.UnmapAll(startVpn, endVpn);
    return 0;
  }

  /** `sys_munmap` with the validation loop bounded by the end of the range */
  method SysMunmapCorrected(task: TaskInner, start: nat, len: nat) returns (r: int)
    modifies task`pages
    ensures MemOutcome(r, task.pages) == MunmapCorrectedSpec(old(task.pages), start, len)
  {
    if Misaligned(start) {
      return -1;
    }
    var startVpn := Floor(start);
    var endVpn := Ceil(start + len);
    FloorBelowCeil(start, len);
    while startVpn < endVpn
      invariant Floor(start) <= startVpn <= endVpn
      invariant forall vpn | Floor(start) <= vpn < startVpn :: Mapped(task.pages, vpn)
    {
      if !task.Check(startVpn) {
        return -1;
      }
      startVpn := startVpn + 1;
    }
    startVpn := Floor(start);
    task.UnmapAll(startVpn, endVpn);
    return 0;
  }

  /**
   * An accepted port maps its three low bits onto R, W and X, and every
   * mapping is user-accessible.
   */
  lemma MmapPermission(port: nat)
    requires !PortRejected(port)
    ensures var p := PermissionOf(MmapPort(port));
            && (p & PERM_R != 0 <==> port % 2 == 1)
            && (p & PERM_W != 0 <==> port / 2 % 2 == 1)
            && (p & PERM_X != 0 <==> port / 4 % 2 == 1)
            && p & PERM_U != 0
            && p & !PERM_ALL == 0
  {
    var low := (MmapPort(port) % 256) as bv8;
    if port == 1 { assert low == 0x12; }
    else if port == 2 { assert low == 0x14; }
    else if port == 3 { assert low == 0x16; }
    else if port == 4 { assert low == 0x18; }
    else if port == 5 { assert low == 0x1A; }
    else if port == 6 { assert low == 0x1C; }
    else { assert low == 0x1E; }
  }

  /** Mapping a non-empty range twice: the second call finds it occupied and changes nothing. */
  lemma MmapTwiceConflicts(pages: map<nat, Pte>, start: nat, len: nat, port: nat)
    requires MmapSpec(pages, start, len, port).ret == 0 && len > 0
    ensures var m := MmapSpec(pages, start, len, port);
            MmapSpec(m.pages, start, len, port) == MemOutcome(-1, m.pages)
  {
    var m := MmapSpec(pages, start, len, port);
    assert Floor(start) < Ceil(start + len);
    assert Mapped(m.pages, Floor(start));
  }

  /**
   * The corrected munmap undoes a successful mmap: it succeeds, leaves every
   * page of the range invalid and every other page as before the mmap, and
   * the same mmap succeeds again with the same result.
   */
  lemma MmapMunmapRoundTrip(pages: map<nat, Pte>, start: nat, len: nat, port: nat)
    requires MmapSpec(pages, start, len, port).ret == 0
    ensures var m := MmapSpec(pages, start, len, port);
            var u := MunmapCorrectedSpec(m.pages, start, len);
            && u.ret == 0
            && (forall vpn | Floor(start) <= vpn < Ceil(start + len) :: !Mapped(u.pages, vpn))
            && (forall vpn | !(Floor(start) <= vpn < Ceil(start + len)) ::
                  (vpn in u.pages <==> vpn in pages) && (vpn in pages ==> u.pages[vpn] == pages[vpn]))
            && MmapSpec(u.pages, start, len, port) == m
  {
    var lo, hi := Floor(start), Ceil(start + len);
    var e := Pte(true, PermissionOf(MmapPort(port)));
    var m := MmapSpec(pages, start, len, port);
    assert m.pages == Fill(pages, lo, hi, e);
    assert forall vpn | lo <= vpn < hi :: Mapped(m.pages, vpn);
    var u := MunmapCorrectedSpec(m.pages, start, len);
    assert u.pages == Fill(m.pages, lo, hi, EMPTY_PTE);
    assert !exists vpn | lo <= vpn < hi :: Mapped(u.pages, vpn);
    assert Fill(u.pages, lo, hi, e) == m.pages;
  }

  /**
   * The same round trip through munmap as written fails whenever the page
   * just past the range is not mapped: it returns -1 and unmaps nothing.
   */
  lemma MunmapAsWrittenRejectsExactRange(pages: map<nat, Pte>, start: nat, len: nat, port: nat)
    requires MmapSpec(pages, start, len, port).ret == 0
    requires !Mapped(pages, Ceil(start + len))
    ensures var m := MmapSpec(pages, start, len, port);
            MunmapSpec(m.pages, start, len) == MemOutcome(-1, m.pages)
  {
    var m := MmapSpec(pages, start, len, port);
    FloorBelowCeil(start, len);
    assert !Mapped(m.pages, Ceil(start + len));
  }

  /** Concretely: map one page at address 0 of an empty space, then unmap that page. */
  lemma MunmapRejectsFreshMapping()
    ensures var m := MmapSpec(map[], 0, PAGE_SIZE, 3);
            m.ret == 0 && MunmapSpec(m.pages, 0, PAGE_SIZE).ret == -1
  {
    assert !Mapped(map[], 1);
    MunmapAsWrittenRejectsExactRange(map[], 0, PAGE_SIZE, 3);
  }

  /** `TimeVal` */
  datatype TimeVal = TimeVal(sec: nat, usec: nat)

  /** the split of a microsecond clock reading in `sys_get_time` */
  function GetTime(us: nat): (tv: TimeVal)
    ensures tv.sec * 1_000_000 + tv.usec == us
    ensures tv.usec < 1_000_000
  {
    TimeVal(us / 1_000_000, us % 1_000_000)
  }
}

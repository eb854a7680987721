/**
 * The per-task memory helpers of os/src/task/mod.rs: the validity query
 * on a virtual page, installing and removing a range of pages, and the
 * per-task syscall counters.
 *
 * The address space is abstracted as a map from virtual page number to
 * the page-table entry `translate` would find: a page number outside the
 * map has no entry at all, one inside it has an entry that is valid or not.
 */
module TaskMemory {

  /** A leaf page-table entry: the valid bit and the permission bits. */
  datatype Pte = Pte(valid: bool, perm: bv8)

  /** what `unmap` writes: `PageTableEntry::empty()` */
  const EMPTY_PTE := Pte(false, 0)

  /** `MapPermission` bits */
  const PERM_R: bv8 := 1 << 1
  const PERM_W: bv8 := 1 << 2
  const PERM_X: bv8 := 1 << 3
  const PERM_U: bv8 := 1 << 4
  const PERM_ALL: bv8 := PERM_R | PERM_W | PERM_X | PERM_U

  /** the page has a valid entry */
  predicate Mapped(pages: map<nat, Pte>, vpn: nat) {
    vpn in pages && pages[vpn].valid
  }

  /**
   * `MapPermission::from_bits_truncate(port as u8)`: keep the low byte,
   * then only the R, W, X and U bits.
   */
  function PermissionOf(port: nat): (perm: bv8)
    ensures perm & !PERM_ALL == 0
    ensures perm & PERM_R == (port % 256) as bv8 & PERM_R
    ensures perm & PERM_W == (port % 256) as bv8 & PERM_W
    ensures perm & PERM_X == (port % 256) as bv8 & PERM_X
    ensures perm & PERM_U == (port % 256) as bv8 & PERM_U
  {
    (port % 256) as bv8 & PERM_ALL
  }

  /** the page numbers of [lo, hi) */
  function PageRange(lo: nat, hi: nat): (s: set<nat>)
    ensures forall vpn :: vpn in s <==> lo <= vpn < hi
    decreases hi - lo
  {
    if hi <= lo then {} else {lo} + PageRange(lo + 1, hi)
  }

  /** the pages of [lo, hi) set to e, every other entry unchanged */
  function Fill(pages: map<nat, Pte>, lo: nat, hi: nat, e: Pte): (r: map<nat, Pte>)
    ensures forall vpn | lo <= vpn < hi :: vpn in r && r[vpn] == e
    ensures forall vpn | !(lo <= vpn < hi) :: (vpn in r <==> vpn in pages)
    ensures forall vpn | vpn in pages && !(lo <= vpn < hi) :: r[vpn] == pages[vpn]
  {
    map vpn | vpn in pages.Keys + PageRange(lo, hi) :: if lo <= vpn < hi then e else pages[vpn]
  }

  /** The part of the task control block these helpers touch. */
  class TaskInner {
    /** `memory_set`, seen through its page table */
    var pages: map<nat, Pte>
    /** `task_syscall`: how often each syscall id was made */
    var syscallTimes: array<nat>

    constructor (pages: map<nat, Pte>, syscallTimes: array<nat>)
      ensures this.pages == pages && this.syscallTimes == syscallTimes
    {
      this.pages := pages;
      this.syscallTimes := syscallTimes;
    }

    /** `check(vpn)`: a valid entry is present (a missing or invalid one gives false) */
    function Check(vpn: nat): (ok: bool)
      reads this
      ensures ok <==> vpn in pages && pages[vpn].valid
    {
      Mapped(pages, vpn)
    }

    /**
     * `map_all`: a framed area over [startVpn, endVpn) with the truncated
     * permission.  Mapping a page that is already valid is a kernel panic
     * in the page table, so callers must not.
     */
    method MapAll(startVpn: nat, endVpn: nat, port: nat)
      requires forall vpn | startVpn <= vpn < endVpn :: !Mapped(pages, vpn)
      modifies this`pages
      ensures pages == Fill(old(pages), startVpn, endVpn, Pte(true, PermissionOf(port)))
    {
      pages := Fill(pages, startVpn, endVpn, Pte(true, PermissionOf(port)));
    }

    /**
     * `unmap_all`: empty the entry of each page of [startVpn, endVpn), end
     * excluded.  Unmapping a page that is not valid is a kernel panic in
     * the page table, so callers must not.
     */
    method UnmapAll(startVpn: nat, endVpn: nat)
      requires forall vpn | startVpn <= vpn < endVpn :: Mapped(pages, vpn)
      modifies this`pages
      ensures pages == Fill(old(pages), startVpn, endVpn, EMPTY_PTE)
      ensures pages.Keys == old(pages.Keys)
    {
      if endVpn <= startVpn {
        assert pages == Fill(pages, startVpn, endVpn, EMPTY_PTE);
        return;
      }
      var vpn := startVpn;
      while vpn < endVpn
        invariant startVpn <= vpn <= endVpn
        invariant pages == Fill(old(pages), startVpn, vpn, EMPTY_PTE)
        invariant pages.Keys == old(pages.Keys)
      {
        assert Mapped(old(pages), vpn);
        pages := pages[vpn := EMPTY_PTE];
        vpn := vpn + 1;
      }
    }

    /** `change_syscall_times`: count one more call of syscall `id` */
    method ChangeSyscallTimes(id: nat)
      requires id < syscallTimes.Length
      modifies syscallTimes
      ensures syscallTimes[id] == old(syscallTimes[id]) + 1
      ensures forall k | 0 <= k < syscallTimes.Length && k != id :: syscallTimes[k] == old(syscallTimes[k])
    {
      syscallTimes[id] := syscallTimes[id] + 1;
    }
  }
}

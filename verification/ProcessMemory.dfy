/** The memory system calls of one process (kernel/src/mm/mmap.rs). */
module ProcessMemory {
  import opened Common
  import opened Errno
  import opened LittleEndian
  import opened PageTable
  import opened Paging
  import opened Pmm
  import opened Vmm
  import opened MapRange
  import opened Mmap
  import UserCopy

  /** Rounds up to a page boundary. */
  function AlignUp(v: nat): (r: nat)
    ensures r % 4096 == 0 && v <= r < v + 4096
  {
    (v + 4095) / 4096 * 4096
  }

  /** A length within a page of the word size rounds up to zero. */
  function WrappedLength(length: nat): (r: nat)
    requires U64_MAX - 4095 < length <= U64_MAX
    ensures r == 0
  {
    AlignUp(length) % (U64_MAX + 1)
  }

  /** The page numbers of `length` bytes from `addr` on. */
  function FirstPage(addr: nat): nat { addr / 4096 }

  function NumPages(length: nat): nat { AlignUp(length) / 4096 }

  lemma PageRange(addr: nat, length: nat)
    requires addr % 4096 == 0 && addr + AlignUp(length) <= VA_LIMIT
    ensures FirstPage(addr) * 4096 == addr
    ensures (FirstPage(addr) + NumPages(length)) * 4096 == addr + AlignUp(length)
    ensures FirstPage(addr) + NumPages(length) <= VPN_LIMIT
  {
  }

  /** Any access implies reading; user pages are never device memory. */
  function ProtToPageAttr(prot: nat): PageAttr {
    PageAttr(prot % 8 != 0, prot / PROT_WRITE % 2 == 1, prot / PROT_EXEC % 2 == 1, true, false)
  }

  /** PROT_NONE asks for no access, but its page is as readable as one with PROT_READ: the entries are the same. */
  lemma ProtNoneReadable(frame: nat)
    requires frame < FRAME_LIMIT
    ensures !ProtToPageAttr(PROT_NONE).readable && UserReads(PageEntry(frame, ProtToPageAttr(PROT_NONE)))
    ensures PageEntry(frame, ProtToPageAttr(PROT_NONE)) == PageEntry(frame, ProtToPageAttr(PROT_READ))
  {
    UserAccess(frame, ProtToPageAttr(PROT_NONE));
  }

  /**
   * Writing and executing are granted as the protection says; reading is exactly when the protection is not
   * PROT_NONE.
   */
  lemma ProtectionExact(frame: nat, prot: nat)
    requires frame < FRAME_LIMIT && prot < 8
    ensures var e := PageEntry(frame, ProtToPageAttr(prot));
            && (UserWrites(e) <==> prot / PROT_WRITE % 2 == 1) && (UserExecutes(e) <==> prot / PROT_EXEC % 2 == 1)
            && ((UserReads(e) <==> ProtToPageAttr(prot).readable) <==> prot != PROT_NONE)
            && (Decode(e) == Mapping(frame, ProtToPageAttr(prot)) <==> prot != PROT_NONE)
  {
    UserAccess(frame, ProtToPageAttr(prot));
    PageEntryFields(frame, ProtToPageAttr(prot));
  }

  // Request flags of `do_mmap`.

  predicate IsShared(flags: nat) { flags / MAP_SHARED % 2 == 1 }

  predicate IsPrivate(flags: nat) { flags / MAP_PRIVATE % 2 == 1 }

  predicate IsFixed(flags: nat) { flags / MAP_FIXED % 2 == 1 }

  predicate IsAnonymous(flags: nat) { flags / MAP_ANONYMOUS % 2 == 1 }

  /** The requests `do_mmap` refuses with EINVAL. */
  predicate BadRequest(addr: nat, length: nat, prot: nat, flags: nat, fd: int, offset: int) {
    || length == 0 || prot >= 8
    || (IsPrivate(flags) <==> IsShared(flags))
    || (!IsAnonymous(flags) && fd < 0)
    || (fd >= 0 && (offset < 0 || offset % 4096 != 0))
    || (IsFixed(flags) && (addr == 0 || addr % 4096 != 0))
  }

  /**
   * A fixed request names its address; others go to the next free one, which lies above all of them but not above
   * what fixed requests and attachments at a given address have mapped.
   */
  function Placement(addr: nat, flags: nat, mmapNext: nat): nat {
    if IsFixed(flags) then addr else AlignUp(mmapNext)
  }

  /** The bytes behind a mapping; a descriptor counts even in an anonymous request. */
  function FileData(fd: int, file: Option<seq<byte>>): seq<byte> {
    if fd >= 0 && file.Some? then file.value else []
  }

  function Decimal(n: nat): (r: string)
    ensures |r| > 0
  {
    var digit := [('0' as int + n % 10) as char];
    if n < 10 then digit else Decimal(n / 10) + digit
  }

  /** What `do_mmap` records about the area; never a shared-memory segment. */
  function Area(prot: nat, flags: nat, fd: int, offset: int): (p: Payload)
    requires !IsAnonymous(flags) ==> fd >= 0
    ensures !IsShmArea(p)
  {
    var name := if IsAnonymous(flags) then "[anon]" else "[fd:" + Decimal(fd) + "]";
    assert name[1] != "[shm:"[1];
    var kind := if IsShared(flags) then MAP_SHARED else MAP_PRIVATE;
    Payload(prot, kind + (if IsAnonymous(flags) then MAP_ANONYMOUS else 0), Max(offset, 0), Some(name))
  }

  /** The reference effect of a heap resize on the areas. */
  ghost function HeapView(view: imap<nat, Payload>, base: nat, oldEnd: nat, newEnd: nat): imap<nat, Payload> {
    var cleared := if oldEnd > base then Outside(view, base, oldEnd) else view;
    if newEnd > base then Overwrite(cleared, base, newEnd, HEAP) else cleared
  }

  const HEAP := Payload(PROT_READ + PROT_WRITE, MAP_PRIVATE + MAP_ANONYMOUS, 0, Some("[heap]"))

  // What the operations on areas do to the set of shared pages.

  lemma ShmAfterUnmap(view: imap<nat, Payload>, first: nat, n: nat, start: nat, end: nat)
    requires start == first * 4096 && end == (first + n) * 4096
    ensures var shm, shm' := ShmPages(view), ShmPages(Outside(view, start, end));
            SameOutside(shm, shm', first, n) && shm' <= shm
  {
  }

  lemma ShmAfterMap(view: imap<nat, Payload>, first: nat, n: nat, start: nat, end: nat, p: Payload)
    requires !IsShmArea(p) && start == first * 4096 && end == (first + n) * 4096
    ensures var shm, shm' := ShmPages(view), ShmPages(Overwrite(view, start, end, p));
            SameOutside(shm, shm', first, n) && shm' <= shm
  {
  }

  lemma ShmAfterProtect(view: imap<nat, Payload>, start: nat, end: nat, prot: nat)
    ensures ShmPages(Reprotect(view, start, end, prot)) == ShmPages(view)
  {
  }

  lemma TraceOwned(tr: Trace, q: Request, start: Snapshot, now: Snapshot, view: imap<nat, Payload>,
                   lo: nat, hi: nat, p: Payload)
    requires TraceFromTo(tr, q, start, now) && !IsShmArea(p) && |now.m| == MAX_PAGES
    requires lo == q.first * 4096 && hi == (q.first + |tr.frames|) * 4096
    requires Owned(start.pages, start.free, start.t, ShmPages(view))
    requires forall k {:trigger start.t[k]} :: k in start.t ==> start.t[k] !in start.free
    ensures Owned(now.pages, now.free, now.t, ShmPages(Overwrite(view, lo, hi, p)))
    ensures ShmPages(Overwrite(view, lo, hi, p)) <= ShmPages(view)
  {
    TraceResult(tr, q, start, now);
    var view' := Overwrite(view, lo, hi, p);
    ShmAfterMap(view, q.first, |tr.frames|, lo, hi, p);
    OwnedAfterMap(start, now, q.first, tr.frames, Done(tr, |tr.frames|), q.attr, ShmPages(view), ShmPages(view'));
  }

  lemma OwnedBacked(s: Snapshot, shm: iset<nat>)
    requires Owned(s.pages, s.free, s.t, shm) && |s.m| == MAX_PAGES
    ensures UserCopy.Backed(s)
  {
    forall v: nat ensures UserCopy.BackedAt(s, v) {
      assert OwnedAt(s.pages, s.free, s.t, shm, v);
    }
  }

  /** Pages added on demand have frames of their own. */
  lemma OwnedAfterCopy(s: Snapshot, s': Snapshot, shm: iset<nat>, addr: nat, data: seq<byte>, done: nat)
    requires Owned(s.pages, s.free, s.t, shm) && |s'.m| == MAX_PAGES && UserCopy.Copying(s, s', addr, data, done)
    ensures Owned(s'.pages, s'.free, s'.t, shm)
  {
    forall v: nat ensures OwnedAt(s'.pages, s'.free, s'.t, shm, v) {
      assert OwnedAt(s.pages, s.free, s.t, shm, v) && UserCopy.BackedAt(s', v);
      assert UserCopy.ExtendedAt(s.pages, s'.pages, addr, |data|, v);
      assert UserCopy.FreshAt(s.pages, s.free, s'.pages, s'.free, v);
      forall w: nat | v in s'.pages && v !in shm && w in s'.pages && w != v
        ensures s'.pages[w].frame != s'.pages[v].frame
      {
        assert UserCopy.ExtendedAt(s.pages, s'.pages, addr, |data|, w);
        assert UserCopy.FreshAt(s.pages, s.free, s'.pages, s'.free, w);
      }
    }
  }

  /** Which pages of a range are shared. */
  ghost function Shared(view: imap<nat, Payload>, first: nat, n: nat): (shared: seq<bool>)
    ensures |shared| == n
    ensures forall i {:trigger shared[i]} :: 0 <= i < n ==> (shared[i] <==> first + i in ShmPages(view))
  {
    seq(n, i requires 0 <= i => first + i in ShmPages(view))
  }

  /** No shared page lies between `from` and `to`. */
  ghost predicate Private(shm: iset<nat>, from: nat, to: nat) {
    forall v :: v in shm ==> !(from <= v * 4096 < to)
  }

  lemma PrivateShrinks(shm: iset<nat>, shm': iset<nat>, from: nat, to: nat)
    requires Private(shm, from, to) && shm' <= shm
    ensures Private(shm', from, to)
  {
  }

  class Process {
    const aspace: AddressSpace
    const areas: VmaMap
    const active: bool // a user page table is installed
    var brkBase: nat
    var brkCurrent: nat
    var mmapNext: nat

    ghost predicate Valid()
      reads this, aspace, aspace.pmm, aspace.pmm.bitmap, aspace.mem, areas
    {
      && aspace.Valid() && areas.Valid() && brkBase <= brkCurrent && AlignUp(brkCurrent) <= VA_LIMIT
      && Owned(aspace.Pages(), aspace.pmm.Free(), aspace.tables, ShmPages(areas.view))
      && Private(ShmPages(areas.view), brkBase, AlignUp(brkCurrent))
    }

    constructor (aspace: AddressSpace, areas: VmaMap, active: bool, brk: nat, mmapNext: nat)
      requires aspace.Valid() && areas.Valid()
      requires Owned(aspace.Pages(), aspace.pmm.Free(), aspace.tables, ShmPages(areas.view))
      requires Private(ShmPages(areas.view), brk, AlignUp(brk)) && AlignUp(brk) <= VA_LIMIT
      ensures Valid() && this.aspace == aspace && this.areas == areas && this.active == active
      ensures brkBase == brkCurrent == brk && this.mmapNext == mmapNext
    {
      this.aspace, this.areas, this.active := aspace, areas, active;
      brkBase, brkCurrent, this.mmapNext := brk, brk, mmapNext;
    }

    /** Which pages of the range belong to shared segments, by `find`. */
    method SharedFlags(first: nat, n: nat) returns (shared: seq<bool>)
      requires areas.Valid()
      ensures shared == Shared(areas.view, first, n)
    {
      var vmas := areas.vmas;
      shared := seq(n, i requires 0 <= i < n => FindShared(vmas, (first + i) * 4096));
      forall i | 0 <= i < n ensures shared[i] <==> first + i in ShmPages(areas.view) {
        SharedAgrees(vmas, areas.view, first + i);
      }
    }

    /** Unmaps and frees the pages of a range and forgets its areas. */
    method Discard(first: nat, n: nat, start: nat, len: nat)
      requires Valid() && first + n <= VPN_LIMIT && start == first * 4096 && len == n * 4096
      modifies aspace, aspace.pmm.bitmap, aspace.pmm`freePages, aspace.pmm`free, aspace.mem, areas
      ensures Valid() && aspace.tables == old(aspace.tables)
      ensures aspace.Pages() == WithoutRange(old(aspace.Pages()), first, n)
      ensures aspace.pmm.Free() ==
                old(aspace.pmm.Free()) + Released(old(aspace.Pages()), first, Shared(old(areas.view), first, n), n)
      ensures areas.view == Outside(old(areas.view), start, start + len)
    {
      ghost var pages, free, view := aspace.Pages(), aspace.pmm.Free(), areas.view;
      ghost var shm := ShmPages(view);
      var flags := SharedFlags(first, n);
      OwnedReleasable(pages, free, aspace.tables, shm, first, flags);
      UnmapPages(aspace, first, flags);
      areas.Unmap(start, len);
      ShmAfterUnmap(view, first, n, start, start + len);
      OwnedAfterUnmap(pages, free, aspace.tables, shm, ShmPages(areas.view), first, flags);
    }

    method DoMunmap(addr: nat, length: nat) returns (r: Result<nat, nat>)
      requires Valid() && addr + AlignUp(length) <= VA_LIMIT
      modifies aspace, aspace.pmm.bitmap, aspace.pmm`freePages, aspace.pmm`free, aspace.mem, areas
      ensures Valid()
      ensures r == if length == 0 || addr % 4096 != 0 then Err(EINVAL) else if !active then Err(ENOMEM) else Ok(0)
      ensures r.Err? ==> unchanged(aspace) && unchanged(aspace.mem) && unchanged(aspace.pmm) && unchanged(areas)
      ensures r.Ok? ==> UnmappedRange(old(Now(aspace)), Now(aspace), old(areas.view), areas.view, addr, length)
    {
      if length == 0 || addr % 4096 != 0 {
        return Err(EINVAL);
      }
      if !active {
        return Err(ENOMEM);
      }
      PageRange(addr, length);
      Discard(FirstPage(addr), NumPages(length), addr, AlignUp(length));
      return Ok(0);
    }

    /** Remaps the collected pages and records the protection in their areas. */
    method ApplyProtection(first: nat, pagePhys: seq<(nat, nat)>, start: nat, len: nat, prot: nat)
      requires start == first * 4096 && len == |pagePhys| * 4096
      requires Valid() && first + |pagePhys| <= VPN_LIMIT && Listed(pagePhys, aspace.Pages(), first) && |pagePhys| > 0
      modifies aspace, aspace.pmm.bitmap, aspace.pmm`freePages, aspace.pmm`free, aspace.mem, areas
      ensures Valid() && aspace.tables == old(aspace.tables) && aspace.pmm.Free() == old(aspace.pmm.Free())
      ensures aspace.Pages() == WithAttr(old(aspace.Pages()), first, |pagePhys|, ProtToPageAttr(prot))
      ensures areas.view == Reprotect(old(areas.view), start, start + len, prot)
      ensures forall f {:trigger aspace.mem.frames[f]} :: 0 <= f < MAX_PAGES && f !in aspace.tables.Values ==>
                aspace.mem.frames[f] == old(aspace.mem.frames)[f]
    {
      ghost var view := areas.view;
      OwnedAfterRemap(aspace.Pages(), aspace.pmm.Free(), aspace.tables, ShmPages(view), first, |pagePhys|,
                      ProtToPageAttr(prot));
      RemapPages(aspace, pagePhys, first, ProtToPageAttr(prot));
      areas.Mprotect(start, len, prot);
      ShmAfterProtect(view, start, start + len, prot);
      assert ShmPages(areas.view) == ShmPages(view);
    }

    /** All or nothing: an unmapped page leaves everything as it was. */
    method DoMprotect(addr: nat, length: nat, prot: nat) returns (r: Result<nat, nat>)
      requires Valid() && addr + AlignUp(length) <= VA_LIMIT
      modifies aspace, aspace.pmm.bitmap, aspace.pmm`freePages, aspace.pmm`free, aspace.mem, areas
      ensures Valid() && aspace.tables == old(aspace.tables) && aspace.pmm.Free() == old(aspace.pmm.Free())
      ensures r == if length == 0 || addr % 4096 != 0 || prot >= 8 then Err(EINVAL) else if !active then Err(ENOMEM)
                   else if AllMapped(old(aspace.Pages()), FirstPage(addr), NumPages(length)) then Ok(0) else Err(EINVAL)
      ensures r.Err? ==> unchanged(aspace) && unchanged(aspace.mem) && unchanged(aspace.pmm) && unchanged(areas)
      ensures r.Ok? ==>
                aspace.Pages() == WithAttr(old(aspace.Pages()), FirstPage(addr), NumPages(length), ProtToPageAttr(prot))
      ensures r.Ok? ==> areas.view == Reprotect(old(areas.view), addr, addr + AlignUp(length), prot)
      ensures forall f {:trigger aspace.mem.frames[f]} :: 0 <= f < MAX_PAGES && f !in aspace.tables.Values ==>
                aspace.mem.frames[f] == old(aspace.mem.frames)[f]
    {
      if length == 0 || addr % 4096 != 0 || prot >= 8 {
        return Err(EINVAL);
      }
      if !active {
        return Err(ENOMEM);
      }
      PageRange(addr, length);
      var pagePhys := CollectPages(aspace, FirstPage(addr), NumPages(length));
      if pagePhys.None? {
        return Err(EINVAL);
      }
      ApplyProtection(FirstPage(addr), pagePhys.value, addr, AlignUp(length), prot);
      return Ok(0);
    }

    /**
     * `do_mprotect` with a length that rounds up past the word size, which wraps to zero pages when overflow checks
     * are off: the call succeeds without touching a page, and the area across `addr`, if any, loses its upper part.
     */
    method DoMprotectWrapped(addr: nat, length: nat, prot: nat) returns (r: Result<nat, nat>)
      requires Valid() && U64_MAX - 4095 < length <= U64_MAX
      modifies areas
      ensures r == if addr % 4096 != 0 || prot >= 8 then Err(EINVAL) else if !active then Err(ENOMEM) else Ok(0)
      ensures r.Err? ==> unchanged(areas)
      ensures r.Ok? ==> (View(areas.vmas) == old(areas.view) <==> Overlapping(old(areas.vmas), addr, addr) == {})
    {
      if addr % 4096 != 0 || prot >= 8 {
        return Err(EINVAL);
      }
      if !active {
        return Err(ENOMEM);
      }
      var len := WrappedLength(length);
      areas.Mprotect(addr, len, prot);
      return Ok(0);
    }

    /** Backs a new area with fresh filled pages, or undoes everything. */
    method MapArea(q: Request, n: nat, base: nat, end: nat, p: Payload)
      returns (ok: bool, ghost tr: Trace, ghost last: Snapshot)
      requires base == q.first * 4096 && end == (q.first + n) * 4096
      requires Valid() && n > 0 && q.first + n <= VPN_LIMIT && !IsShmArea(p)
      modifies aspace, aspace.pmm.bitmap, aspace.pmm`freePages, aspace.pmm`free, aspace.mem, areas
      ensures Valid()
      ensures TraceFromTo(tr, q, old(Now(aspace)), last) && Decided(old(Now(aspace)), q, n, ok, last.pages)
      ensures ok ==> |tr.frames| == n && last == Now(aspace)
      ensures ok ==> areas.view == Overwrite(old(areas.view), base, end, p)
      ensures !ok ==> |tr.frames| < n && last.free == {}
      ensures !ok ==> RolledBack(old(Now(aspace)), Now(aspace), q.first, |tr.frames|)
      ensures !ok ==> unchanged(areas)
    {
      ghost var start, view := Now(aspace), areas.view;
      ok, tr, last := MapPages(aspace, q, n);
      if !ok {
        OwnedAfterRollBack(start, Now(aspace), q.first, |tr.frames|, ShmPages(view));
        return;
      }
      TraceOwned(tr, q, start, last, view, base, end, p);
      areas.Map(base, end, p);
      PrivateShrinks(ShmPages(view), ShmPages(areas.view), brkBase, AlignUp(brkCurrent));
    }

    method ClearIfFixed(base: nat, length: nat, fixed: bool, ghost p: Payload)
      requires Valid() && active && length > 0 && base % 4096 == 0 && base + AlignUp(length) <= VA_LIMIT
      modifies aspace, aspace.pmm.bitmap, aspace.pmm`freePages, aspace.pmm`free, aspace.mem, areas
      ensures Valid()
      ensures Cleared(Now(aspace), old(Now(aspace)), FirstPage(base), NumPages(length), fixed,
                      Shared(old(areas.view), FirstPage(base), NumPages(length)))
      ensures areas.view == if fixed then Outside(old(areas.view), base, base + AlignUp(length)) else old(areas.view)
      ensures Overwrite(areas.view, base, base + AlignUp(length), p) ==
                Overwrite(old(areas.view), base, base + AlignUp(length), p)
    {
      if fixed {
        OverwriteOutside(areas.view, base, base + AlignUp(length), p);
        AlignedStays(length);
        var _ := DoMunmap(base, AlignUp(length));
      }
    }

    /** The mapping step of `do_mmap`; with `fixed` the range is unmapped first. */
    method MapAt(base: nat, length: nat, fixed: bool, q: Request, p: Payload)
      returns (r: Result<nat, nat>, ghost start: Snapshot, ghost tr: Trace, ghost last: Snapshot)
      requires Valid() && active && length > 0 && base % 4096 == 0 && base + AlignUp(length) <= VA_LIMIT
      requires q.first == FirstPage(base) && !IsShmArea(p)
      modifies aspace, aspace.pmm.bitmap, aspace.pmm`freePages, aspace.pmm`free, aspace.mem, areas
      ensures Valid()
      ensures MappedRange(old(Now(aspace)), Now(aspace), old(areas.view), areas.view, base, length, fixed, q, p,
                          r, start, tr, last)
    {
      PageRange(base, length);
      ClearIfFixed(base, length, fixed, p);
      start := Now(aspace);
      var ok;
      ok, tr, last := MapArea(q, NumPages(length), base, base + AlignUp(length), p);
      r := if ok then Ok(base) else Err(ENOMEM);
    }

    /** Chooses the address and moves the next free one past it. */
    method Reserve(addr: nat, length: nat, flags: nat) returns (base: nat)
      requires Valid()
      modifies `mmapNext
      ensures Valid() && base == Placement(addr, flags, old(mmapNext))
      ensures Now(aspace) == old(Now(aspace)) && areas.view == old(areas.view)
      ensures mmapNext == if IsFixed(flags) then old(mmapNext) else base + AlignUp(length)
    {
      base := Placement(addr, flags, mmapNext);
      if !IsFixed(flags) {
        mmapNext := base + AlignUp(length);
      }
    }

    /** `file` is what the inode behind `fd` holds, if `fd` leads to one. */
    method DoMmap(addr: nat, length: nat, prot: nat, flags: nat, fd: int, offset: int, file: Option<seq<byte>>)
      returns (r: Result<nat, nat>, ghost start: Snapshot, ghost tr: Trace, ghost last: Snapshot)
      requires Valid() && Placement(addr, flags, mmapNext) + AlignUp(length) <= VA_LIMIT
      modifies `mmapNext, aspace, aspace.pmm.bitmap, aspace.pmm`freePages, aspace.pmm`free, aspace.mem, areas
      ensures Valid()
      ensures var bad, fixed := BadRequest(addr, length, prot, flags, fd, offset), IsFixed(flags);
              && (bad ==> r == Err(EINVAL))
              && (!bad && !active ==> r == Err(ENOMEM))
              && (bad || !active ==>
                    unchanged(aspace) && unchanged(aspace.mem) && unchanged(aspace.pmm) && unchanged(areas))
              && mmapNext == if bad || fixed then old(mmapNext) else AlignUp(old(mmapNext)) + AlignUp(length)
      ensures !BadRequest(addr, length, prot, flags, fd, offset) && active ==>
                var base := Placement(addr, flags, old(mmapNext));
                var q := Request(FirstPage(base), ProtToPageAttr(prot), FileData(fd, file), Max(offset, 0));
                MappedRange(old(Now(aspace)), Now(aspace), old(areas.view), areas.view, base, length, IsFixed(flags), q,
                            Area(prot, flags, fd, offset), r, start, tr, last)
    {
      start := Now(aspace);
      tr, last := Trace(aspace.root, [start], [], []), start;
      if BadRequest(addr, length, prot, flags, fd, offset) {
        return Err(EINVAL), start, tr, last;
      }
      var base := Reserve(addr, length, flags);
      if !active {
        return Err(ENOMEM), start, tr, last;
      }
      var q := Request(FirstPage(base), ProtToPageAttr(prot), FileData(fd, file), Max(offset, 0));
      r, start, tr, last := MapAt(base, length, IsFixed(flags), q, Area(prot, flags, fd, offset));
    }

    /** Copying to user memory, which adds pages where none are mapped, keeps the process as it has to be. */
    method CopyToUser(addr: nat, data: seq<byte>) returns (r: Result<(), nat>, ghost done: nat)
      requires Valid() && addr + |data| <= VA_LIMIT
      modifies aspace, aspace.pmm.bitmap, aspace.pmm`freePages, aspace.pmm`free, aspace.mem
      ensures Valid() && UserCopy.Copying(old(Now(aspace)), Now(aspace), addr, data, done)
      ensures r.Ok? <==> done == |data|
    {
      ghost var s, shm := Now(aspace), ShmPages(areas.view);
      OwnedBacked(s, shm);
      r, done := UserCopy.CopyToUser(aspace, addr, data);
      OwnedAfterCopy(s, Now(aspace), shm, addr, data, done);
    }

    /** The growing branch of `do_brk`: fresh pages above the heap, or everything undone. */
    method GrowHeap(first: nat, n: nat, oldEnd: nat, newEnd: nat) returns (ok: bool, ghost tr: Trace,
                    ghost last: Snapshot)
      requires Valid() && first + n <= VPN_LIMIT && oldEnd == AlignUp(brkCurrent)
      requires oldEnd == first * 4096 && newEnd == (first + n) * 4096
      modifies aspace, aspace.pmm.bitmap, aspace.pmm`freePages, aspace.pmm`free, aspace.mem
      ensures aspace.Valid() && areas.Valid()
      ensures Grown(old(Now(aspace)), Now(aspace), first, n, ok, tr, last)
      ensures ok ==> Owned(aspace.Pages(), aspace.pmm.Free(), aspace.tables,
                           ShmPages(HeapView(areas.view, brkBase, oldEnd, newEnd)))
      ensures !ok ==> Valid()
    {
      ghost var start, shm := Now(aspace), ShmPages(areas.view);
      ok, tr, last := MapPages(aspace, Anonymous(first, USER_RW), n);
      if ok {
        HeapGrown(tr, Anonymous(first, USER_RW), start, last, areas.view, brkBase, oldEnd, newEnd);
      } else {
        OwnedAfterRollBack(start, Now(aspace), first, |tr.frames|, shm);
      }
    }

    /** The shrinking branch of `do_brk`: the pages above the new end go back to the allocator. */
    method ShrinkHeap(first: nat, n: nat, oldEnd: nat, newEnd: nat)
      requires Valid() && first + n <= VPN_LIMIT && oldEnd == AlignUp(brkCurrent) && brkBase <= newEnd
      requires newEnd == first * 4096 && oldEnd == (first + n) * 4096
      modifies aspace, aspace.pmm.bitmap, aspace.pmm`freePages, aspace.pmm`free, aspace.mem
      ensures aspace.Valid() && areas.Valid() && Shrunk(old(Now(aspace)), Now(aspace), first, n)
      ensures Owned(aspace.Pages(), aspace.pmm.Free(), aspace.tables,
                    ShmPages(HeapView(areas.view, brkBase, oldEnd, newEnd)))
    {
      ghost var pages, free, t, shm := aspace.Pages(), aspace.pmm.Free(), aspace.tables, ShmPages(areas.view);
      ghost var shm' := ShmPages(HeapView(areas.view, brkBase, oldEnd, newEnd));
      ShmAfterHeap(areas.view, brkBase, oldEnd, newEnd, first, 0);
      OwnedReleasable(pages, free, t, shm, first, AllPrivate(n));
      OwnedAfterUnmap(pages, free, t, shm, shm', first, AllPrivate(n));
      UnmapPages(aspace, first, AllPrivate(n));
    }

    /** Replaces the heap area. */
    method UpdateHeapVma(oldEnd: nat)
      requires areas.Valid() && brkBase <= oldEnd
      modifies areas
      ensures areas.Valid() && areas.view == HeapView(old(areas.view), brkBase, oldEnd, AlignUp(brkCurrent))
    {
      if oldEnd > brkBase {
        areas.Unmap(brkBase, oldEnd - brkBase);
      }
      var newEnd := AlignUp(brkCurrent);
      if newEnd > brkBase {
        areas.Map(brkBase, newEnd, HEAP);
      }
    }

    /** The heap pages follow the new break; `done` is false when growing failed and was undone. */
    method ResizeHeap(low: nat, high: nat, oldEnd: nat, newEnd: nat)
      returns (done: bool, ghost tr: Trace, ghost last: Snapshot)
      requires Valid() && oldEnd == AlignUp(brkCurrent) && brkBase <= newEnd
      requires oldEnd == low * 4096 && newEnd == high * 4096 && low <= VPN_LIMIT && high <= VPN_LIMIT
      modifies aspace, aspace.pmm.bitmap, aspace.pmm`freePages, aspace.pmm`free, aspace.mem
      ensures aspace.Valid() && areas.Valid()
      ensures done ==> Owned(aspace.Pages(), aspace.pmm.Free(), aspace.tables,
                             ShmPages(HeapView(areas.view, brkBase, oldEnd, newEnd)))
      ensures Resized(old(Now(aspace)), Now(aspace), low, high, done, tr, last)
      ensures !done ==> Valid()
    {
      tr, last := Trace(aspace.root, [Now(aspace)], [], []), Now(aspace);
      done := true;
      if high > low {
        done, tr, last := GrowHeap(low, Distance(low, high), oldEnd, newEnd);
      } else {
        ShrinkHeap(high, Distance(low, high), oldEnd, newEnd);
      }
    }

    method DoBrk(addr: nat) returns (r: Result<nat, nat>, ghost tr: Trace, ghost last: Snapshot)
      requires Valid() && AlignUp(addr) <= VA_LIMIT
      modifies `brkCurrent, aspace, aspace.pmm.bitmap, aspace.pmm`freePages, aspace.pmm`free, aspace.mem, areas
      ensures Valid() && r == Ok(brkCurrent)
      ensures var idle := addr == 0 || addr < brkBase || addr == old(brkCurrent) || !active;
              && (idle ==>
                    && unchanged(this) && unchanged(areas)
                    && unchanged(aspace) && unchanged(aspace.mem) && unchanged(aspace.pmm))
              && (!idle ==>
                    var oldEnd, newEnd := AlignUp(old(brkCurrent)), AlignUp(addr);
                    && Resized(old(Now(aspace)), Now(aspace), FirstPage(oldEnd), FirstPage(newEnd), brkCurrent == addr,
                               tr, last)
                    && (brkCurrent == addr ==> areas.view == HeapView(old(areas.view), brkBase, oldEnd, newEnd))
                    && (brkCurrent != addr ==> brkCurrent == old(brkCurrent) && unchanged(areas)))
    {
      tr, last := Trace(aspace.root, [Now(aspace)], [], []), Now(aspace);
      if addr == 0 || addr < brkBase || addr == brkCurrent || !active {
        return Ok(brkCurrent), tr, last;
      }
      var oldEnd, newEnd := AlignUp(brkCurrent), AlignUp(addr);
      var done;
      ghost var view := areas.view;
      PageSpan(oldEnd, newEnd);
      done, tr, last := ResizeHeap(FirstPage(oldEnd), FirstPage(newEnd), oldEnd, newEnd);
      if done {
        brkCurrent := addr;
        UpdateHeapVma(oldEnd);
        HeapStaysPrivate(view, brkBase, oldEnd, newEnd);
      }
      r := Ok(brkCurrent);
    }
  }

  lemma PageSpan(oldEnd: nat, newEnd: nat)
    requires oldEnd % 4096 == 0 && newEnd % 4096 == 0 && oldEnd <= VA_LIMIT && newEnd <= VA_LIMIT
    ensures FirstPage(oldEnd) * 4096 == oldEnd && FirstPage(newEnd) * 4096 == newEnd
    ensures FirstPage(oldEnd) <= VPN_LIMIT && FirstPage(newEnd) <= VPN_LIMIT
    ensures oldEnd <= newEnd <==> FirstPage(oldEnd) <= FirstPage(newEnd)
  {
  }

  ghost predicate Grown(start: Snapshot, now: Snapshot, first: nat, n: nat, done: bool, tr: Trace, last: Snapshot) {
    && TraceFromTo(tr, Anonymous(first, USER_RW), start, last)
    && Decided(start, Anonymous(first, USER_RW), n, done, last.pages)
    && (if done then |tr.frames| == n && last == now
        else |tr.frames| < n && last.free == {} && RolledBack(start, now, first, |tr.frames|))
  }

  /** Page `v` is gone if it is in the range and as before if not, and the frames of the range are free. */
  ghost predicate ShrunkAt(start: Snapshot, now: Snapshot, first: nat, n: nat, v: nat) {
    && now.t == start.t && now.free == start.free + Released(start.pages, first, AllPrivate(n), n)
    && (v in now.pages <==> v in start.pages && !(first <= v < first + n))
    && (v in now.pages ==> now.pages[v] == start.pages[v])
  }

  ghost predicate Shrunk(start: Snapshot, now: Snapshot, first: nat, n: nat) {
    forall v: nat {:trigger ShrunkAt(start, now, first, n, v)} :: ShrunkAt(start, now, first, n, v)
  }

  /** What `do_brk` does to pages and frames when the end of the heap moves from page `low` to page `high`. */
  ghost predicate Resized(start: Snapshot, now: Snapshot, low: nat, high: nat, done: bool, tr: Trace, last: Snapshot) {
    if high > low then Grown(start, now, low, Distance(low, high), done, tr, last)
    else done && Shrunk(start, now, high, Distance(low, high))
  }

  function Distance(low: nat, high: nat): nat { Max(low, high) - Min(low, high) }

  function AllPrivate(n: nat): (shared: seq<bool>)
    ensures |shared| == n && forall i {:trigger shared[i]} :: 0 <= i < n ==> !shared[i]
  {
    seq(n, i => false)
  }

  /** Resizing a private heap hides only the shared pages it grows over. */
  lemma ShmAfterHeap(view: imap<nat, Payload>, base: nat, oldEnd: nat, newEnd: nat, first: nat, n: nat)
    requires Private(ShmPages(view), base, oldEnd) && base <= oldEnd && base <= newEnd
    requires if oldEnd <= newEnd then oldEnd == first * 4096 && newEnd == (first + n) * 4096 else n == 0
    ensures SameOutside(ShmPages(view), ShmPages(HeapView(view, base, oldEnd, newEnd)), first, n)
  {
  }

  lemma HeapStaysPrivate(view: imap<nat, Payload>, base: nat, oldEnd: nat, newEnd: nat)
    ensures Private(ShmPages(HeapView(view, base, oldEnd, newEnd)), base, newEnd)
  {
  }

  lemma HeapGrown(tr: Trace, q: Request, start: Snapshot, now: Snapshot, view: imap<nat, Payload>, base: nat,
                  oldEnd: nat, newEnd: nat)
    requires TraceFromTo(tr, q, start, now) && |now.m| == MAX_PAGES
    requires Private(ShmPages(view), base, oldEnd) && base <= oldEnd
    requires oldEnd == q.first * 4096 && newEnd == (q.first + |tr.frames|) * 4096
    requires Owned(start.pages, start.free, start.t, ShmPages(view))
    requires forall k {:trigger start.t[k]} :: k in start.t ==> start.t[k] !in start.free
    ensures Owned(now.pages, now.free, now.t, ShmPages(HeapView(view, base, oldEnd, newEnd)))
  {
    TraceResult(tr, q, start, now);
    var shm' := ShmPages(HeapView(view, base, oldEnd, newEnd));
    ShmAfterHeap(view, base, oldEnd, newEnd, q.first, |tr.frames|);
    OwnedAfterMap(start, now, q.first, tr.frames, Done(tr, |tr.frames|), q.attr, ShmPages(view), shm');
  }

  lemma AlignedStays(length: nat)
    ensures AlignUp(AlignUp(length)) == AlignUp(length) && NumPages(AlignUp(length)) == NumPages(length)
  {
  }

  /** `start` is where mapping begins: the state before, with the range unmapped if it was `fixed`. */
  ghost predicate Cleared(start: Snapshot, before: Snapshot, first: nat, n: nat, fixed: bool, shared: seq<bool>)
    requires |shared| == n
  {
    if fixed then
      && start.t == before.t && start.pages == WithoutRange(before.pages, first, n)
      && start.free == before.free + Released(before.pages, first, shared, n)
    else start == before
  }

  /** The range is unmapped, its areas are gone, and the frames of its pages that are not shared are free. */
  ghost predicate UnmappedRange(before: Snapshot, now: Snapshot, view: imap<nat, Payload>, view': imap<nat, Payload>,
                                addr: nat, length: nat) {
    var first, n := FirstPage(addr), NumPages(length);
    && now.t == before.t && now.pages == WithoutRange(before.pages, first, n)
    && now.free == before.free + Released(before.pages, first, Shared(view, first, n), n)
    && view' == Outside(view, addr, addr + AlignUp(length))
  }

  /**
   * What mapping `length` bytes at `base` amounts to: the range is cleared if `fixed`, then its pages are filled and
   * mapped one by one (`tr`, from `start` to `last`), and either the area `p` is recorded or everything but new
   * tables is undone. Which of the two, and whether the last page got its tables, is `Decided` by the free frames.
   */
  ghost predicate MappedRange(before: Snapshot, now: Snapshot, view: imap<nat, Payload>, view': imap<nat, Payload>,
                              base: nat, length: nat, fixed: bool, q: Request, p: Payload,
                              r: Result<nat, nat>, start: Snapshot, tr: Trace, last: Snapshot) {
    var n, end := NumPages(length), base + AlignUp(length);
    && Cleared(start, before, FirstPage(base), n, fixed, Shared(view, FirstPage(base), n))
    && TraceFromTo(tr, q, start, last) && Decided(start, q, n, r.Ok?, last.pages)
    && (r.Ok? ==> r.value == base && |tr.frames| == n && last == now && view' == Overwrite(view, base, end, p))
    && (r.Err? ==>
          && r.error == ENOMEM && |tr.frames| < n && last.free == {}
          && RolledBack(start, now, FirstPage(base), |tr.frames|)
          && view' == if fixed then Outside(view, base, end) else view)
  }

  lemma SharedAgrees(vmas: Vmas, view: imap<nat, Payload>, v: nat)
    requires Ordered(vmas) && NonEmpty(vmas) && Shows(vmas, view)
    ensures FindShared(vmas, v * 4096) <==> v in ShmPages(view)
  {
    FindAgrees(vmas, view, v * 4096);
  }

  predicate FindShared(vmas: Vmas, addr: nat) {
    var area := Find(vmas, addr);
    area.Some? && IsShmArea(area.value.payload)
  }
}

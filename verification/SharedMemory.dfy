/**
 * Shared memory as a process sees it: `do_shmat` and `do_shmdt` (kernel/src/mm/shm.rs) on pages, areas and
 * attachment records together, and the memory calls (kernel/src/mm/mmap.rs) with the records they release.
 */
module SharedMemory {
  import opened Common
  import opened Errno
  import opened PageTable
  import opened Paging
  import opened Pmm
  import opened Vmm
  import opened MapRange
  import opened Mmap
  import opened ProcessMemory
  import Shm

  const USER_RO := PageAttr(true, false, false, true, false)

  function Access(readonly: bool): PageAttr { if readonly then USER_RO else USER_RW }

  // Mapping the memory of a segment.

  /**
   * What attaching does to page `v` and to the machine: pages of the range lead to the segment if they are mapped at
   * all, the others are as before, and frames are used for tables only.
   */
  ghost predicate AttachedAt(s: Snapshot, s': Snapshot, first: nat, n: nat, seg: nat, attr: PageAttr, v: nat) {
    && Grew(s.free, s.m, s.t, s'.free, s'.m, s'.t, {}, Paths(first, n))
    && if first <= v < first + n then v in s'.pages ==> s'.pages[v] == Granted(seg + (v - first), attr)
       else (v in s'.pages <==> v in s.pages) && (v in s.pages ==> s'.pages[v] == s.pages[v])
  }

  ghost predicate Attached(s: Snapshot, s': Snapshot, first: nat, n: nat, seg: nat, attr: PageAttr) {
    forall v: nat {:trigger AttachedAt(s, s', first, n, seg, attr, v)} :: AttachedAt(s, s', first, n, seg, attr, v)
  }

  lemma AttachStart(s: Snapshot, first: nat, seg: nat, attr: PageAttr)
    requires forall k {:trigger s.t[k]} :: k in s.t ==> s.t[k] !in s.free
    ensures Attached(s, s, first, 0, seg, attr)
  {
  }

  lemma AttachGrows(s0: Snapshot, s: Snapshot, s': Snapshot, first: nat, i: nat, seg: nat, attr: PageAttr)
    requires Attached(s0, s, first, i, seg, attr)
    requires Grew(s.free, s.m, s.t, s'.free, s'.m, s'.t, {}, Path(first + i))
    ensures Grew(s0.free, s0.m, s0.t, s'.free, s'.m, s'.t, {}, Paths(first, i + 1))
  {
    assert AttachedAt(s0, s, first, i, seg, attr, 0);
    var none: set<nat> := {};
    GrewTransitive(s0.free, s0.m, s0.t, s.free, s.m, s.t, none, Paths(first, i),
                   s'.free, s'.m, s'.t, none, Path(first + i));
    assert none + none == none;
  }

  lemma AttachStep(s0: Snapshot, s: Snapshot, s': Snapshot, first: nat, i: nat, seg: nat, attr: PageAttr)
    requires Attached(s0, s, first, i, seg, attr)
    requires s'.pages == s.pages[first + i := Granted(seg + i, attr)] || (s'.pages == s.pages && first + i !in s.pages)
    requires Grew(s.free, s.m, s.t, s'.free, s'.m, s'.t, {}, Path(first + i))
    ensures Attached(s0, s', first, i + 1, seg, attr)
  {
    AttachGrows(s0, s, s', first, i, seg, attr);
    var n := i + 1;
    forall v: nat ensures AttachedAt(s0, s', first, n, seg, attr, v) {
      assert AttachedAt(s0, s, first, i, seg, attr, v);
    }
  }

  /** The mapping loop of `do_shmat`; a page whose tables cannot be built is passed over. */
  method MapSegment(aspace: AddressSpace, first: nat, n: nat, seg: nat, attr: PageAttr)
    requires aspace.Valid() && first + n <= VPN_LIMIT && seg + n <= FRAME_LIMIT
    modifies aspace, aspace.pmm.bitmap, aspace.pmm`freePages, aspace.pmm`free, aspace.mem
    ensures aspace.Valid() && Attached(old(Now(aspace)), Now(aspace), first, n, seg, attr)
  {
    ghost var start := Now(aspace);
    AttachStart(start, first, seg, attr);
    for i := 0 to n
      invariant aspace.Valid() && Attached(start, Now(aspace), first, i, seg, attr)
    {
      ghost var now := Now(aspace);
      var _ := aspace.MapPage(first + i, seg + i, attr);
      AttachStep(start, now, Now(aspace), first, i, seg, attr);
    }
  }

  /** The segment's frames are memory in use, are no tables, and no private page outside the range leads to them. */
  ghost predicate ForeignAt(s: Snapshot, shm: iset<nat>, first: nat, n: nat, seg: nat, i: nat) {
    && seg + i < MAX_PAGES && seg + i !in s.free && seg + i !in s.t.Values
    && forall v {:trigger s.pages[v]} :: v in s.pages && !(first <= v < first + n) && v !in shm ==>
         s.pages[v].frame != seg + i
  }

  ghost predicate Foreign(s: Snapshot, shm: iset<nat>, first: nat, n: nat, seg: nat) {
    forall i: nat {:trigger ForeignAt(s, shm, first, n, seg, i)} :: i < n ==> ForeignAt(s, shm, first, n, seg, i)
  }

  ghost predicate AllShared(shm: iset<nat>, first: nat, n: nat) {
    forall v: nat :: first <= v < first + n ==> v in shm
  }

  /** Ownership survives attaching where every attached page counts as shared. */
  lemma OwnedAfterAttach(s: Snapshot, s': Snapshot, shm: iset<nat>, shm': iset<nat>, first: nat, n: nat, seg: nat,
                         attr: PageAttr)
    requires Owned(s.pages, s.free, s.t, shm) && Foreign(s, shm, first, n, seg)
    requires Attached(s, s', first, n, seg, attr)
    requires Mmap.SameOutside(shm, shm', first, n) && AllShared(shm', first, n)
    ensures Owned(s'.pages, s'.free, s'.t, shm')
  {
    forall v: nat ensures OwnedAt(s'.pages, s'.free, s'.t, shm', v) {
      if v in s'.pages {
        AttachedPage(s, s', shm, first, n, seg, attr, v);
        if v !in shm' {
          assert OwnedAt(s.pages, s.free, s.t, shm, v);
          forall w | w in s'.pages && w != v ensures s'.pages[w].frame != s'.pages[v].frame {
            assert AttachedAt(s, s', first, n, seg, attr, w);
            assert first <= w < first + n ==> ForeignAt(s, shm, first, n, seg, w - first);
          }
        }
      }
    }
  }

  lemma AttachedPage(s: Snapshot, s': Snapshot, shm: iset<nat>, first: nat, n: nat, seg: nat, attr: PageAttr, v: nat)
    requires Owned(s.pages, s.free, s.t, shm) && Foreign(s, shm, first, n, seg)
    requires Attached(s, s', first, n, seg, attr) && v in s'.pages
    ensures s'.pages[v].frame < MAX_PAGES && s'.pages[v].frame !in s'.free && s'.pages[v].frame !in s'.t.Values
    ensures !(first <= v < first + n) ==> v in s.pages && s'.pages[v] == s.pages[v]
  {
    assert AttachedAt(s, s', first, n, seg, attr, v);
    if first <= v < first + n {
      assert ForeignAt(s, shm, first, n, seg, v - first);
    } else {
      assert OwnedAt(s.pages, s.free, s.t, shm, v);
    }
  }

  /** Ownership survives unmapping without freeing. */
  lemma OwnedAfterDetach(pages: PageMap, free: set<nat>, t: Tables, shm: iset<nat>, shm': iset<nat>, first: nat, n: nat)
    requires Owned(pages, free, t, shm) && Mmap.SameOutside(shm, shm', first, n)
    ensures Owned(WithoutRange(pages, first, n), free, t, shm')
  {
    forall v: nat ensures OwnedAt(WithoutRange(pages, first, n), free, t, shm', v) {
      assert OwnedAt(pages, free, t, shm, v);
    }
  }

  // Which pages count as shared.

  function ShmName(id: nat): (r: string)
    ensures "[shm:" <= r
  {
    "[shm:" + Decimal(id) + "]"
  }

  function ShmArea(id: nat, readonly: bool): (p: Payload)
    ensures IsShmArea(p) && p.name == Some(ShmName(id))
  {
    Payload(if readonly then PROT_READ else PROT_READ + PROT_WRITE, MAP_SHARED, 0, Some(ShmName(id)))
  }

  /**
   * Every page that `do_shmat` maps counts as shared, so that `munmap` does not free it, exactly when the address
   * is aligned or its page was shared already.
   */
  lemma AttachRecognised(view: imap<nat, Payload>, addr: nat, size: nat, p: Payload)
    requires size > 0 && IsShmArea(p)
    ensures AllShared(ShmPages(Overwrite(view, addr, addr + size, p)), FirstPage(addr), NumPages(size)) <==>
            addr % 4096 == 0 || FirstPage(addr) in ShmPages(view)
    ensures addr % 4096 == 0 ==>
              Mmap.SameOutside(ShmPages(view), ShmPages(Overwrite(view, addr, addr + size, p)), FirstPage(addr),
                               NumPages(size))
  {
    var view', first := Overwrite(view, addr, addr + size, p), FirstPage(addr);
    forall v: nat | first < v < first + NumPages(size) ensures v in ShmPages(view') {
      assert addr <= v * 4096 < addr + size;
    }
    assert addr % 4096 == 0 ==> first * 4096 == addr;
    assert addr % 4096 != 0 ==> first * 4096 < addr;
    assert first in ShmPages(view') <==> addr % 4096 == 0 || first in ShmPages(view);
  }

  /** A segment of one page attached at address 4097: unmapping its page frees the segment's memory. */
  lemma UnalignedAttachIsFreed(pages: PageMap, seg: nat, id: nat)
    requires 1 in pages && pages[1].frame == seg
    ensures var view := Overwrite(imap[], 4097, 4097 + 4096, ShmArea(id, false));
            seg in Released(pages, FirstPage(4097), Shared(view, FirstPage(4097), 1), 1)
  {
    var view := Overwrite(imap[], 4097, 4097 + 4096, ShmArea(id, false));
    assert 1 !in ShmPages(view);
  }

  lemma DetachShrinks(view: imap<nat, Payload>, addr: nat, size: nat)
    requires addr % 4096 == 0
    ensures Mmap.SameOutside(ShmPages(view), ShmPages(Outside(view, addr, addr + size)), FirstPage(addr),
                             NumPages(size))
    ensures ShmPages(Outside(view, addr, addr + size)) <= ShmPages(view)
  {
    forall v: nat | !(FirstPage(addr) <= v < FirstPage(addr) + NumPages(size))
      ensures !(addr <= v * 4096 < addr + size)
    {
      assert FirstPage(addr) * 4096 == addr;
    }
  }

  lemma AttachStaysPrivate(view: imap<nat, Payload>, addr: nat, size: nat, p: Payload, from: nat, to: nat)
    requires Private(ShmPages(view), from, to) && (addr + size <= from || to <= addr)
    ensures Private(ShmPages(Overwrite(view, addr, addr + size, p)), from, to)
  {
    var view' := Overwrite(view, addr, addr + size, p);
    forall v | v in ShmPages(view') ensures !(from <= v * 4096 < to) {
      assert !(addr <= v * 4096 < addr + size) ==> v in ShmPages(view);
    }
  }

  // No shared page without a record, so no shared page without a segment.

  /** Page `v` lies in one of these attachments, of the segment it is named after. */
  ghost predicate HeldBy(view: imap<nat, Payload>, recs: seq<Shm.Record>, v: nat)
    requires v in ShmPages(view)
  {
    exists r :: r in recs && r.addr <= v * 4096 < r.addr + r.size && view[v * 4096].name == Some(ShmName(r.id))
  }

  /** Of the threads `pids`, which share the areas, one holds each shared page. */
  ghost predicate LinkedAt(view: imap<nat, Payload>, attach: Shm.Attachments, pids: set<nat>, v: nat) {
    v in ShmPages(view) ==> exists pid :: pid in pids && HeldBy(view, Shm.Of(attach, pid), v)
  }

  ghost predicate Linked(view: imap<nat, Payload>, attach: Shm.Attachments, pids: set<nat>) {
    forall v: nat {:trigger LinkedAt(view, attach, pids, v)} :: LinkedAt(view, attach, pids, v)
  }

  lemma LinkedAfterAttach(view: imap<nat, Payload>, attach: Shm.Attachments, pids: set<nat>, pid: nat,
                          rec: Shm.Record, readonly: bool)
    requires Linked(view, attach, pids) && pid in pids
    ensures Linked(Overwrite(view, rec.addr, rec.addr + rec.size, ShmArea(rec.id, readonly)),
                   attach[pid := Shm.Of(attach, pid) + [rec]], pids)
  {
    var view' := Overwrite(view, rec.addr, rec.addr + rec.size, ShmArea(rec.id, readonly));
    var attach' := attach[pid := Shm.Of(attach, pid) + [rec]];
    forall v: nat ensures LinkedAt(view', attach', pids, v) {
      if v in ShmPages(view') {
        if rec.addr <= v * 4096 < rec.addr + rec.size {
          assert rec in Shm.Of(attach', pid) && HeldBy(view', Shm.Of(attach', pid), v);
        } else {
          assert LinkedAt(view, attach, pids, v);
          var q :| q in pids && HeldBy(view, Shm.Of(attach, q), v);
          assert HeldBy(view', Shm.Of(attach', q), v);
        }
      }
    }
  }

  /** Pages go away and the records that stay hold the pages that stay. */
  lemma LinkedShrinks(view: imap<nat, Payload>, view': imap<nat, Payload>, attach: Shm.Attachments,
                      attach': Shm.Attachments, pids: set<nat>, pid: nat)
    requires Linked(view, attach, pids) && forall q: nat :: q != pid ==> Shm.Of(attach', q) == Shm.Of(attach, q)
    requires forall v: nat :: v in ShmPages(view') ==>
               v in ShmPages(view) && view'[v * 4096].name == view[v * 4096].name
    requires forall v: nat, r {:trigger v in ShmPages(view'), r in Shm.Of(attach, pid)} ::
               v in ShmPages(view') && r in Shm.Of(attach, pid) && r.addr <= v * 4096 < r.addr + r.size ==>
                 r in Shm.Of(attach', pid)
    ensures Linked(view', attach', pids)
  {
    forall v: nat ensures LinkedAt(view', attach', pids, v) {
      if v in ShmPages(view') {
        assert LinkedAt(view, attach, pids, v);
        var q :| q in pids && HeldBy(view, Shm.Of(attach, q), v);
        assert HeldBy(view', Shm.Of(attach', q), v);
      }
    }
  }

  lemma LinkedAfterDetach(view: imap<nat, Payload>, attach: Shm.Attachments, attach': Shm.Attachments, pids: set<nat>,
                          pid: nat, addr: nat, rec: Shm.Record)
    requires Linked(view, attach, pids) && forall q: nat :: q != pid ==> Shm.Of(attach', q) == Shm.Of(attach, q)
    requires Shm.TookFirst(Shm.Of(attach, pid), Shm.Of(attach', pid), addr, rec)
    ensures Linked(Outside(view, rec.addr, rec.addr + rec.size), attach', pids)
  {
    OthersStay(Shm.Of(attach, pid), Shm.Of(attach', pid), addr, rec);
    LinkedShrinks(view, Outside(view, rec.addr, rec.addr + rec.size), attach, attach', pids, pid);
  }

  lemma OthersStay(recs: seq<Shm.Record>, recs': seq<Shm.Record>, addr: nat, rec: Shm.Record)
    requires Shm.TookFirst(recs, recs', addr, rec)
    ensures forall r :: r in recs && r != rec ==> r in recs'
  {
    var i: nat :| Shm.FirstAt(recs, i, addr) && recs[i] == rec && recs' == recs[..i] + recs[i + 1..];
    forall r | r in recs && r != rec ensures r in recs' {
      var j :| 0 <= j < |recs| && recs[j] == r;
      assert j < i ==> recs'[j] == r;
      assert j > i ==> recs'[j - 1] == r;
    }
  }

  lemma LinkedAfterMunmap(view: imap<nat, Payload>, attach: Shm.Attachments, attach': Shm.Attachments, pids: set<nat>,
                          pid: nat, start: nat, end: nat)
    requires Linked(view, attach, pids) && forall q: nat :: q != pid ==> Shm.Of(attach', q) == Shm.Of(attach, q)
    requires Shm.Of(attach', pid) == Shm.Kept(Shm.Of(attach, pid), start, end)
    ensures Linked(Outside(view, start, end), attach', pids)
  {
    Shm.KeptMembers(Shm.Of(attach, pid), start, end);
    LinkedShrinks(view, Outside(view, start, end), attach, attach', pids, pid);
  }

  /** A fixed `mmap` releases the attachments of its thread that it covers and puts its area over the range. */
  lemma LinkedAfterFixed(view: imap<nat, Payload>, attach: Shm.Attachments, attach': Shm.Attachments, pids: set<nat>,
                         pid: nat, start: nat, end: nat, p: Payload)
    requires Linked(view, attach, pids) && forall q: nat :: q != pid ==> Shm.Of(attach', q) == Shm.Of(attach, q)
    requires Shm.Of(attach', pid) == Shm.Kept(Shm.Of(attach, pid), start, end) && !IsShmArea(p)
    ensures Linked(Overwrite(view, start, end, p), attach', pids)
  {
    LinkedAfterMunmap(view, attach, attach', pids, pid, start, end);
    OverwriteOutside(view, start, end, p);
    LinkedAfterOthers(Outside(view, start, end), Overwrite(view, start, end, p), attach', pids);
  }

  /** The other memory calls make no page shared and rename none. */
  lemma LinkedAfterOthers(view: imap<nat, Payload>, view': imap<nat, Payload>, attach: Shm.Attachments, pids: set<nat>)
    requires Linked(view, attach, pids)
    requires
      || (exists lo, hi, p :: !IsShmArea(p) && view' == Overwrite(view, lo, hi, p))
      || (exists lo, hi, prot :: view' == Reprotect(view, lo, hi, prot))
      || (exists base, oldEnd, newEnd :: view' == HeapView(view, base, oldEnd, newEnd))
    ensures Linked(view', attach, pids)
  {
    LinkedShrinks(view, view', attach, attach, pids, 0);
  }

  /** Page `v` lies in attachments of `pid` and of no other thread. */
  ghost predicate OnlyIn(view: imap<nat, Payload>, attach: Shm.Attachments, pids: set<nat>, pid: nat, v: nat) {
    v in ShmPages(view) && forall q :: q in pids && HeldBy(view, Shm.Of(attach, q), v) ==> q == pid
  }

  /** The exit of a thread keeps the shared pages of the others held exactly when none of them was held by it alone. */
  lemma ExitKeepsLinked(view: imap<nat, Payload>, attach: Shm.Attachments, pids: set<nat>, pid: nat)
    requires Linked(view, attach, pids)
    ensures Linked(view, attach - {pid}, pids - {pid}) <==>
            forall v: nat {:trigger OnlyIn(view, attach, pids, pid, v)} :: !OnlyIn(view, attach, pids, pid, v)
  {
    var attach', pids' := attach - {pid}, pids - {pid};
    forall v: nat ensures LinkedAt(view, attach', pids', v) <==> !OnlyIn(view, attach, pids, pid, v) {
      assert LinkedAt(view, attach, pids, v);
      assert forall q :: q in pids' ==> Shm.Of(attach', q) == Shm.Of(attach, q);
    }
    if Linked(view, attach', pids') {
      forall v: nat ensures !OnlyIn(view, attach, pids, pid, v) {
        assert LinkedAt(view, attach', pids', v);
      }
    }
  }

  /** A child of `fork` has the areas but no records: its pages are held exactly when none counts as shared. */
  lemma ForkedLinked(view: imap<nat, Payload>, attach: Shm.Attachments, child: nat)
    requires Shm.Of(attach, child) == []
    ensures Linked(view, attach, {child}) <==> ShmPages(view) == iset{}
  {
    if Linked(view, attach, {child}) {
      forall v: nat ensures v !in ShmPages(view) {
        assert LinkedAt(view, attach, {child}, v);
      }
    }
  }

  lemma {:induction false} MemberCounts(q: seq<Shm.Record>, r: Shm.Record)
    requires r in q
    ensures Shm.Count(q, r.id) > 0
  {
    if q[0] != r {
      MemberCounts(q[1..], r);
    }
  }

  /** The segment behind a page that is held exists and counts an attachment, marked for deletion or not. */
  lemma SegmentAlive(segs: map<nat, Shm.Segment>, attach: Shm.Attachments, pids: set<nat>, view: imap<nat, Payload>,
                     v: nat) returns (id: nat)
    requires Shm.Accounts(segs, attach, []) && Linked(view, attach, pids) && v in ShmPages(view)
    ensures view[v * 4096].name == Some(ShmName(id)) && id in segs && segs[id].attachCount > 0
  {
    assert LinkedAt(view, attach, pids, v);
    var pid :| pid in pids && HeldBy(view, Shm.Of(attach, pid), v);
    var r :| r in Shm.Of(attach, pid) && view[v * 4096].name == Some(ShmName(r.id));
    id := r.id;
    MemberCounts(attach[pid], r);
    Shm.TotalSplit(attach, attach.Keys, pid, id);
    assert Shm.AccountsAt(segs, attach, [], id);
  }

  /**
   * Threads 1 and 2 share their memory. Thread 1 attaches a segment, marks it for deletion and exits: the segment
   * is gone, but page 1 still counts as shared and leads to its memory.
   */
  method ThreadExitFreesSegment() returns (table: Shm.ShmTable, id: nat, ghost view: imap<nat, Payload>,
                                           ghost before: Shm.Attachments)
    ensures table.Valid() && view == Overwrite(imap[], 4096, 8192, ShmArea(id, false)) && 1 in ShmPages(view)
    ensures Linked(view, before, {1, 2}) && OnlyIn(view, before, {1, 2}, 1, 1) && table.attach == before - {1}
    ensures id !in table.segs
  {
    table := new Shm.ShmTable();
    var got := table.DoShmget(0, 4096, false, false);
    id := got.value;
    view := Overwrite(imap[], 4096, 8192, ShmArea(id, false));
    var attached := table.Attach(1, id, 4096);
    before := table.attach;
    assert before[1] == [Shm.Record(4096, id, 4096)];
    OneThreadHolds(id, view, before);
    assert Shm.AccountsAt(table.segs, before, [], id);
    var marked := table.DoShmctlRmid(id);
    assert Shm.AccountsAt(table.segs, before, [], id);
    ghost var segs := table.segs;
    table.CleanupProcessAttachments(1);
    NoAttachments(table.attach, id);
    assert Shm.ReleasedAt(segs, table.segs, table.attach, id);
  }

  lemma OneThreadHolds(id: nat, view: imap<nat, Payload>, attach: Shm.Attachments)
    requires view == Overwrite(imap[], 4096, 8192, ShmArea(id, false))
    requires attach == map[1 := [Shm.Record(4096, id, 4096)]]
    ensures Linked(view, attach, {1, 2}) && OnlyIn(view, attach, {1, 2}, 1, 1)
  {
    assert Shm.Of(attach, 1)[0] == Shm.Record(4096, id, 4096) && Shm.Of(attach, 2) == [];
    forall v: nat ensures LinkedAt(view, attach, {1, 2}, v) {
      assert v in ShmPages(view) ==> HeldBy(view, Shm.Of(attach, 1), v);
    }
  }

  lemma NoAttachments(attach: Shm.Attachments, id: nat)
    requires attach == map[]
    ensures Shm.Records(attach, id) == 0
  {
  }

  // The system calls.

  /** The address after `size` bytes at `addr`. */
  function End(addr: nat, size: nat): nat { addr + size }

  function AttachAddress(shmaddr: nat, mmapNext: nat): nat {
    if shmaddr != 0 then shmaddr else AlignUp(mmapNext)
  }

  /** There is room for the segment at `addr`, away from the heap, and its memory is not the allocator's to give. */
  ghost predicate Attachable(p: Process, addr: nat, size: nat, seg: nat)
    requires p.Valid()
    reads p, p.aspace, p.aspace.pmm, p.aspace.pmm.bitmap, p.aspace.mem, p.areas
  {
    && FirstPage(addr) + NumPages(size) <= VPN_LIMIT && seg + NumPages(size) <= MAX_PAGES
    && (addr + size <= p.brkBase || AlignUp(p.brkCurrent) <= addr)
    && Foreign(Now(p.aspace), ShmPages(p.areas.view), FirstPage(addr), NumPages(size), seg)
  }

  /** The memory half of `do_shmat`. */
  method AttachAt(p: Process, addr: nat, size: nat, seg: nat, id: nat, readonly: bool, ghost view: imap<nat, Payload>)
    requires p.Valid() && view == p.areas.view && size > 0 && Attachable(p, addr, size, seg)
    modifies p.aspace, p.aspace.pmm.bitmap, p.aspace.pmm`freePages, p.aspace.pmm`free, p.aspace.mem, p.areas
    ensures p.aspace.Valid() && p.areas.Valid() && (addr % 4096 == 0 ==> p.Valid())
    ensures Attached(old(Now(p.aspace)), Now(p.aspace), FirstPage(addr), NumPages(size), seg, Access(readonly))
    ensures p.areas.view == Overwrite(view, addr, End(addr, size), ShmArea(id, readonly))
  {
    ghost var start := Now(p.aspace);
    MapSegment(p.aspace, FirstPage(addr), NumPages(size), seg, Access(readonly));
    if addr % 4096 == 0 {
      OwnedAttachment(start, Now(p.aspace), view, addr, size, seg, Access(readonly), ShmArea(id, readonly));
    }
    AttachStaysPrivate(view, addr, size, ShmArea(id, readonly), p.brkBase, AlignUp(p.brkCurrent));
    p.areas.Map(addr, End(addr, size), ShmArea(id, readonly));
  }

  lemma OwnedAttachment(s: Snapshot, s': Snapshot, view: imap<nat, Payload>, addr: nat, size: nat, seg: nat,
                        attr: PageAttr, p: Payload)
    requires Owned(s.pages, s.free, s.t, ShmPages(view)) && IsShmArea(p) && size > 0 && addr % 4096 == 0
    requires Foreign(s, ShmPages(view), FirstPage(addr), NumPages(size), seg)
    requires Attached(s, s', FirstPage(addr), NumPages(size), seg, attr)
    ensures Owned(s'.pages, s'.free, s'.t, ShmPages(Overwrite(view, addr, End(addr, size), p)))
  {
    AttachRecognised(view, addr, size, p);
    OwnedAfterAttach(s, s', ShmPages(view), ShmPages(Overwrite(view, addr, End(addr, size), p)), FirstPage(addr),
                     NumPages(size), seg, attr);
  }

  /** Moves the next free address past the attachment if the caller left the choice. */
  method Reserve(p: Process, shmaddr: nat, addr: nat, size: nat, ghost seg: nat)
    requires p.Valid() && addr == AttachAddress(shmaddr, p.mmapNext) && Attachable(p, addr, size, seg)
    modifies p`mmapNext
    ensures p.Valid() && Attachable(p, addr, size, seg)
    ensures p.mmapNext == if shmaddr == 0 then addr + AlignUp(Max(size, 4096)) else old(p.mmapNext)
  {
    if shmaddr == 0 {
      p.mmapNext := addr + AlignUp(Max(size, 4096));
    }
  }

  /** Everything `do_shmat` does to the process. */
  method AttachMemory(p: Process, shmaddr: nat, addr: nat, size: nat, seg: nat, id: nat, readonly: bool,
                      ghost view: imap<nat, Payload>)
    requires p.Valid() && view == p.areas.view && size > 0
    requires addr == AttachAddress(shmaddr, p.mmapNext) && Attachable(p, addr, size, seg)
    modifies p`mmapNext, p.aspace, p.aspace.pmm.bitmap, p.aspace.pmm`freePages, p.aspace.pmm`free, p.aspace.mem, p.areas
    ensures p.aspace.Valid() && p.areas.Valid() && (addr % 4096 == 0 ==> p.Valid())
    ensures Attached(old(Now(p.aspace)), Now(p.aspace), FirstPage(addr), NumPages(size), seg, Access(readonly))
    ensures p.areas.view == Overwrite(view, addr, End(addr, size), ShmArea(id, readonly))
    ensures p.mmapNext == if shmaddr == 0 then addr + AlignUp(Max(size, 4096)) else old(p.mmapNext)
  {
    Reserve(p, shmaddr, addr, size, seg);
    AttachAt(p, addr, size, seg, id, readonly, view);
  }

  /** Everything `do_shmat` does to the tables; the pages it is about to map will be held. */
  method AttachRecord(table: Shm.ShmTable, pid: nat, id: nat, addr: nat, readonly: bool,
                      ghost view: imap<nat, Payload>, ghost pids: set<nat>)
    requires table.Valid() && pid in pids && id in table.segs && !table.segs[id].marked
    modifies table`segs, table`attach
    ensures table.Valid()
    ensures var size := old(table.segs)[id].size;
            && table.attach == old(table.attach)[pid := Shm.Of(old(table.attach), pid) + [Shm.Record(addr, id, size)]]
            && (old(Linked(view, table.attach, pids)) ==>
                  Linked(Overwrite(view, addr, End(addr, size), ShmArea(id, readonly)), table.attach, pids))
  {
    if Linked(view, table.attach, pids) {
      LinkedAfterAttach(view, table.attach, pids, pid, Shm.Record(addr, id, table.segs[id].size), readonly);
    }
    var _ := table.Attach(pid, id, addr);
  }

  /** Attaches a live segment, whose memory starts at frame `seg`: pages, area and record. */
  method DoShmat(p: Process, table: Shm.ShmTable, pid: nat, id: nat, shmaddr: nat, readonly: bool, seg: nat,
                 ghost pids: set<nat>)
    returns (r: Result<nat, nat>)
    requires p.Valid() && table.Valid() && pid in pids
    requires id in table.segs ==> Attachable(p, AttachAddress(shmaddr, p.mmapNext), table.segs[id].size, seg)
    modifies p`mmapNext, p.aspace, p.aspace.pmm.bitmap, p.aspace.pmm`freePages, p.aspace.pmm`free, p.aspace.mem,
             p.areas, table`segs, table`attach
    ensures table.Valid() && p.aspace.Valid() && p.areas.Valid()
    ensures old(Linked(p.areas.view, table.attach, pids)) ==> Linked(p.areas.view, table.attach, pids)
    ensures var live := id in old(table.segs) && !old(table.segs)[id].marked;
            r == if live then Ok(AttachAddress(shmaddr, old(p.mmapNext))) else Err(EINVAL)
    ensures r.Err? ==> p.Valid() && Now(p.aspace) == old(Now(p.aspace))
    ensures r.Err? ==> unchanged(p) && unchanged(p.areas) && unchanged(table)
    ensures r.Ok? ==>
              var addr, size := AttachAddress(shmaddr, old(p.mmapNext)), old(table.segs)[id].size;
              && (addr % 4096 == 0 ==> p.Valid())
              && Attached(old(Now(p.aspace)), Now(p.aspace), FirstPage(addr), NumPages(size), seg,
                               Access(readonly))
              && p.areas.view == Overwrite(old(p.areas.view), addr, End(addr, size), ShmArea(id, readonly))
              && table.attach == old(table.attach)[pid := Shm.Of(old(table.attach), pid) + [Shm.Record(addr, id, size)]]
              && p.mmapNext == if shmaddr == 0 then addr + AlignUp(Max(size, 4096)) else old(p.mmapNext)
  {
    if id !in table.segs || table.segs[id].marked {
      return Err(EINVAL);
    }
    var addr, size := AttachAddress(shmaddr, p.mmapNext), table.segs[id].size;
    ghost var view := p.areas.view;
    AttachRecord(table, pid, id, addr, readonly, view, pids);
    assert p.areas.view == view;
    AttachMemory(p, shmaddr, addr, size, seg, id, readonly, view);
    return Ok(addr);
  }

  function AllTrue(n: nat): (r: seq<bool>)
    ensures |r| == n && forall i {:trigger r[i]} :: 0 <= i < n ==> r[i]
  {
    seq(n, i => true)
  }

  lemma {:induction false} NothingReleased(pages: PageMap, first: nat, n: nat, m: nat, free: set<nat>, t: Tables)
    requires m <= n
    ensures Released(pages, first, AllTrue(n), m) == {}
    ensures Releasable(pages, first, AllTrue(n), free, t)
  {
    if m > 0 {
      NothingReleased(pages, first, n, m - 1, free, t);
    }
  }

  /** The memory half of `do_shmdt`: the pages are unmapped, but nothing is freed. */
  method DetachAt(p: Process, addr: nat, size: nat, ghost view: imap<nat, Payload>)
    requires p.Valid() && view == p.areas.view && addr % 4096 == 0 && FirstPage(addr) + NumPages(size) <= VPN_LIMIT
    modifies p.aspace, p.aspace.pmm.bitmap, p.aspace.pmm`freePages, p.aspace.pmm`free, p.aspace.mem, p.areas
    ensures p.Valid() && p.aspace.tables == old(p.aspace.tables) && p.aspace.pmm.Free() == old(p.aspace.pmm.Free())
    ensures p.aspace.Pages() == WithoutRange(old(p.aspace.Pages()), FirstPage(addr), NumPages(size))
    ensures p.areas.view == Outside(view, addr, End(addr, size))
  {
    ghost var s := Now(p.aspace);
    var first, n := FirstPage(addr), NumPages(size);
    NothingReleased(s.pages, first, n, n, s.free, s.t);
    UnmapPages(p.aspace, first, AllTrue(n));
    DetachShrinks(view, addr, size);
    OwnedAfterDetach(s.pages, s.free, s.t, ShmPages(view), ShmPages(Outside(view, addr, End(addr, size))), first, n);
    PrivateShrinks(ShmPages(view), ShmPages(Outside(view, addr, End(addr, size))), p.brkBase, AlignUp(p.brkCurrent));
    p.areas.Unmap(addr, size);
  }

  /** Everything `do_shmdt` does to the tables; the pages that it leaves mapped will be held. */
  method DetachRecord(table: Shm.ShmTable, pid: nat, addr: nat, ghost view: imap<nat, Payload>, ghost pids: set<nat>)
    returns (r: Result<Shm.Record, nat>)
    requires table.Valid() && pid in pids
    modifies table`segs, table`attach
    ensures table.Valid() && Shm.Released(old(table.segs), table.segs, table.attach)
    ensures r.Ok? <==> addr != 0 && addr % 4096 == 0 && Shm.HasAddr(Shm.Of(old(table.attach), pid), addr)
    ensures r.Err? ==> r == Err(EINVAL) && unchanged(table)
    ensures r.Ok? ==> Shm.TookFirst(Shm.Of(old(table.attach), pid), Shm.Of(table.attach, pid), addr, r.value)
    ensures r.Ok? ==> r.value in Shm.Of(old(table.attach), pid)
    ensures r.Ok? && old(Linked(view, table.attach, pids)) ==>
              Linked(Outside(view, addr, End(addr, r.value.size)), table.attach, pids)
  {
    ghost var attach := table.attach;
    r := table.Detach(pid, addr);
    if r.Ok? {
      TakenIsMember(Shm.Of(attach, pid), Shm.Of(table.attach, pid), addr, r.value);
      if Linked(view, attach, pids) {
        LinkedAfterDetach(view, attach, table.attach, pids, pid, addr, r.value);
      }
    }
  }

  /** Detaches the first attachment at the address: record, pages and area. */
  method DoShmdt(p: Process, table: Shm.ShmTable, pid: nat, addr: nat, ghost pids: set<nat>)
    returns (r: Result<nat, nat>, ghost rec: Shm.Record)
    requires p.Valid() && table.Valid() && pid in pids
    requires forall q {:trigger q in Shm.Of(table.attach, pid)} :: q in Shm.Of(table.attach, pid) ==>
               FirstPage(q.addr) + NumPages(q.size) <= VPN_LIMIT
    modifies p.aspace, p.aspace.pmm.bitmap, p.aspace.pmm`freePages, p.aspace.pmm`free, p.aspace.mem, p.areas,
             table`segs, table`attach
    ensures p.Valid() && table.Valid()
    ensures old(Linked(p.areas.view, table.attach, pids)) ==> Linked(p.areas.view, table.attach, pids)
    ensures var found := addr != 0 && addr % 4096 == 0 && Shm.HasAddr(Shm.Of(old(table.attach), pid), addr);
            r == if found then Ok(0) else Err(EINVAL)
    ensures r.Err? ==> Now(p.aspace) == old(Now(p.aspace)) && unchanged(p.areas) && unchanged(table)
    ensures p.aspace.pmm.Free() == old(p.aspace.pmm.Free())
    ensures r.Ok? ==>
              && Shm.TookFirst(Shm.Of(old(table.attach), pid), Shm.Of(table.attach, pid), addr, rec)
              && p.aspace.Pages() == WithoutRange(old(p.aspace.Pages()), FirstPage(addr), NumPages(rec.size))
              && p.areas.view == Outside(old(p.areas.view), addr, End(addr, rec.size))
  {
    rec := Shm.Record(0, 0, 0);
    ghost var view := p.areas.view;
    var taken := DetachRecord(table, pid, addr, view, pids);
    assert p.areas.view == view;
    if taken.Err? {
      return Err(EINVAL), rec;
    }
    rec := taken.value;
    DetachAt(p, addr, taken.value.size, view);
    return Ok(0), rec;
  }

  lemma TakenIsMember(recs: seq<Shm.Record>, recs': seq<Shm.Record>, addr: nat, rec: Shm.Record)
    requires Shm.TookFirst(recs, recs', addr, rec)
    ensures rec in recs && rec.addr == addr
  {
  }

  /** The last step of `do_munmap`: the pages outside the range stay held. */
  method ReleaseRange(table: Shm.ShmTable, pid: nat, addr: nat, len: nat, ghost view: imap<nat, Payload>,
                      ghost pids: set<nat>)
    requires table.Valid() && pid in pids && len > 0
    modifies table`segs, table`attach
    ensures table.Valid() && Shm.Released(old(table.segs), table.segs, table.attach)
    ensures Shm.Of(table.attach, pid) == Shm.Kept(Shm.Of(old(table.attach), pid), addr, End(addr, len))
    ensures forall q: nat :: q != pid ==> Shm.Of(table.attach, q) == Shm.Of(old(table.attach), q)
    ensures old(Linked(view, table.attach, pids)) ==> Linked(Outside(view, addr, End(addr, len)), table.attach, pids)
  {
    ghost var attach := table.attach;
    table.DetachMappingsInRange(pid, addr, len);
    if Linked(view, attach, pids) {
      LinkedAfterMunmap(view, attach, table.attach, pids, pid, addr, End(addr, len));
    }
  }

  /** `do_munmap` with its last step: the attachments that lie wholly in the range are released. */
  method DoMunmap(p: Process, table: Shm.ShmTable, pid: nat, addr: nat, length: nat, ghost pids: set<nat>)
    returns (r: Result<nat, nat>)
    requires p.Valid() && table.Valid() && pid in pids
    requires addr + AlignUp(length) <= VA_LIMIT
    modifies p.aspace, p.aspace.pmm.bitmap, p.aspace.pmm`freePages, p.aspace.pmm`free, p.aspace.mem, p.areas,
             table`segs, table`attach
    ensures p.Valid() && table.Valid()
    ensures old(Linked(p.areas.view, table.attach, pids)) ==> Linked(p.areas.view, table.attach, pids)
    ensures r == if length == 0 || addr % 4096 != 0 then Err(EINVAL) else if !p.active then Err(ENOMEM) else Ok(0)
    ensures r.Err? ==> Now(p.aspace) == old(Now(p.aspace)) && unchanged(p.areas) && unchanged(table)
    ensures r.Ok? ==>
              && UnmappedRange(old(Now(p.aspace)), Now(p.aspace), old(p.areas.view), p.areas.view, addr, length)
              && Shm.Of(table.attach, pid) == Shm.Kept(Shm.Of(old(table.attach), pid), addr, End(addr, AlignUp(length)))
    ensures forall q: nat :: q != pid ==> Shm.Of(table.attach, q) == Shm.Of(old(table.attach), q)
    ensures Shm.Released(old(table.segs), table.segs, table.attach)
  {
    ghost var view := p.areas.view;
    r := p.DoMunmap(addr, length);
    if r.Err? {
      Shm.UnchangedReleases(table.segs, table.attach);
      return;
    }
    ghost var now, view' := Now(p.aspace), p.areas.view;
    ReleaseRange(table, pid, addr, AlignUp(length), view, pids);
    assert Now(p.aspace) == now && p.areas.view == view';
  }
}

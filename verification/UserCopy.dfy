/** Copying between kernel buffers and user memory (kernel/src/syscall/fs.rs), with demand paging on writes. */
module UserCopy {
  import opened Common
  import opened Errno
  import opened LittleEndian
  import opened PageTable
  import opened Paging
  import opened MapRange

  // User memory as a function of the page map and the frames.

  /** Every mapped page leads to a frame of memory that is neither free nor a table. */
  ghost predicate BackedAt(s: Snapshot, v: nat) {
    v in s.pages ==> s.pages[v].frame < |s.m| && s.pages[v].frame !in s.free && s.pages[v].frame !in s.t.Values
  }

  ghost predicate Backed(s: Snapshot) {
    forall v: nat {:trigger BackedAt(s, v)} :: BackedAt(s, v)
  }

  /** No two pages lead to the same frame. */
  ghost predicate Apart(pages: PageMap) {
    forall v, w {:trigger pages[v], pages[w]} :: v in pages && w in pages && v != w ==> pages[v].frame != pages[w].frame
  }

  /** The byte range from `addr` on has a byte in page `v`. */
  predicate Touches(v: nat, addr: nat, n: nat) {
    n > 0 && v * 4096 < addr + n && addr < v * 4096 + 4096
  }

  /** Byte `o` of page `v` after `written` went to `addr` on; pages that had to be added start as zeros. */
  ghost function ByteAfter(s: Snapshot, addr: nat, written: seq<byte>, v: nat, o: nat): byte
    requires Backed(s) && o < 4096
  {
    var a := v * 4096 + o;
    if addr <= a < addr + |written| then written[a - addr]
    else if v in s.pages then (assert BackedAt(s, v); s.m[s.pages[v].frame][o])
    else 0
  }

  /** User memory in `now` is that in `start` with `written` laid over it. */
  ghost predicate OverlaidAt(start: Snapshot, now: Snapshot, addr: nat, written: seq<byte>, v: nat)
    requires Backed(start) && Backed(now)
  {
    v in now.pages ==>
      assert BackedAt(now, v);
      forall o: nat {:trigger now.m[now.pages[v].frame][o]} :: o < 4096 ==>
        now.m[now.pages[v].frame][o] == ByteAfter(start, addr, written, v, o)
  }

  ghost predicate Overlaid(start: Snapshot, now: Snapshot, addr: nat, written: seq<byte>)
    requires Backed(start) && Backed(now)
  {
    forall v: nat {:trigger OverlaidAt(start, now, addr, written, v)} :: OverlaidAt(start, now, addr, written, v)
  }

  /** Old translations stay; added ones are zero-filled user pages touched by the range. */
  ghost predicate ExtendedAt(start: PageMap, now: PageMap, addr: nat, n: nat, v: nat) {
    && (v in start ==> v in now && now[v] == start[v])
    && (v in now && v !in start ==> Touches(v, addr, n) && now[v] == Granted(now[v].frame, USER_RW))
  }

  ghost predicate Extended(start: PageMap, now: PageMap, addr: nat, n: nat) {
    forall v: nat {:trigger ExtendedAt(start, now, addr, n, v)} :: ExtendedAt(start, now, addr, n, v)
  }

  /** An added page has a frame that was free and that no other page has. */
  ghost predicate FreshAt(pages0: PageMap, free0: set<nat>, pages: PageMap, free: set<nat>, v: nat) {
    && free <= free0
    && (v in pages && v !in pages0 ==>
          && pages[v].frame in free0
          && forall w {:trigger pages[w]} :: w in pages && w != v ==> pages[w].frame != pages[v].frame)
  }

  ghost predicate Fresh(pages0: PageMap, free0: set<nat>, pages: PageMap, free: set<nat>) {
    forall v: nat {:trigger FreshAt(pages0, free0, pages, free, v)} :: FreshAt(pages0, free0, pages, free, v)
  }

  ghost predicate Covered(pages: PageMap, addr: nat, n: nat) {
    forall v: nat {:trigger Touches(v, addr, n)} :: Touches(v, addr, n) ==> v in pages
  }

  // One page fault.

  lemma FaultBacked(s: Snapshot, s': Snapshot, vpn: nat, frame: nat, mapped: bool)
    requires Backed(s) && Stepped(s, s', vpn, USER_RW, ZeroFrame(), frame, mapped)
    requires forall k {:trigger s.t[k]} :: k in s.t ==> s.t[k] !in s.free
    ensures Backed(s')
    ensures Apart(s.pages) && vpn !in s.pages ==> Apart(s'.pages)
    ensures s'.free < s.free
  {
    forall v: nat ensures BackedAt(s', v) {
      assert BackedAt(s, v);
    }
    assert frame in {frame};
    forall v: nat | v in s.pages ensures s.pages[v].frame != frame {
      assert BackedAt(s, v);
    }
  }

  lemma FaultFresh(start: Snapshot, s: Snapshot, s': Snapshot, vpn: nat, frame: nat, mapped: bool)
    requires Backed(s) && Stepped(s, s', vpn, USER_RW, ZeroFrame(), frame, mapped)
    requires Fresh(start.pages, start.free, s.pages, s.free) && vpn !in s.pages
    ensures Fresh(start.pages, start.free, s'.pages, s'.free)
  {
    assert FreshAt(start.pages, start.free, s.pages, s.free, vpn) && frame in {frame};
    forall v: nat | v in s.pages ensures s.pages[v].frame != frame {
      assert BackedAt(s, v);
    }
    forall v: nat ensures FreshAt(start.pages, start.free, s'.pages, s'.free, v) {
      assert FreshAt(start.pages, start.free, s.pages, s.free, v);
    }
  }

  /** A fault loses the frame it takes exactly when the free frames do not reach the tables of its page. */
  lemma FaultLoses(s: Snapshot, s': Snapshot, one: Trace, vpn: nat)
    requires Backed(s) && IsTrace(one, Anonymous(vpn, USER_RW)) && one.states == [s, s'] && |one.frames| == 1
    requires forall k {:trigger s.t[k]} :: k in s.t ==> s.t[k] !in s.free
    ensures Lost(s', one.frames[0]) <==> |s.free| < Need(Anonymous(vpn, USER_RW), 1, s.t.Keys)
    ensures Lost(s', one.frames[0]) <==> vpn !in s'.pages
  {
    forall v: nat | v in s.pages ensures s.pages[v].frame !in s.free {
      assert BackedAt(s, v);
    }
    FrameOfHole(one, Anonymous(vpn, USER_RW), s, s', 0);
    FrameLost(one, Anonymous(vpn, USER_RW), s, s', 0, 1);
  }

  lemma FaultOverlaid(start: Snapshot, s: Snapshot, s': Snapshot, addr: nat, written: seq<byte>, vpn: nat,
                      frame: nat, mapped: bool)
    requires Backed(start) && Backed(s) && Backed(s') && Stepped(s, s', vpn, USER_RW, ZeroFrame(), frame, mapped)
    requires vpn !in s.pages && vpn !in start.pages && Covered(s.pages, addr, |written|)
    requires Overlaid(start, s, addr, written)
    ensures Overlaid(start, s', addr, written)
  {
    assert !Touches(vpn, addr, |written|);
    forall v: nat ensures OverlaidAt(start, s', addr, written, v) {
      assert OverlaidAt(start, s, addr, written, v) && BackedAt(s, v) && BackedAt(s', v);
    }
  }

  lemma FaultExtended(start: PageMap, now: PageMap, addr: nat, n: nat, vpn: nat, frame: nat)
    requires Extended(start, now, addr, n) && vpn !in now && Touches(vpn, addr, n)
    ensures Extended(start, now[vpn := Granted(frame, USER_RW)], addr, n) && vpn !in start
  {
    var now' := now[vpn := Granted(frame, USER_RW)];
    assert ExtendedAt(start, now, addr, n, vpn);
    forall v: nat ensures ExtendedAt(start, now', addr, n, v) {
      assert ExtendedAt(start, now, addr, n, v);
    }
  }

  // One chunk.

  function Splice(content: Frame, o: nat, chunk: seq<byte>): (r: Frame)
    requires o + |chunk| <= 4096
    ensures forall i {:trigger r[i]} :: 0 <= i < 4096 ==>
              r[i] == if o <= i < o + |chunk| then chunk[i - o] else content[i]
  {
    content[..o] + chunk + content[o + |chunk|..]
  }

  lemma ChunkOverlaid(start: Snapshot, s: Snapshot, addr: nat, written: seq<byte>, chunk: seq<byte>, vpn: nat, o: nat)
    requires Backed(start) && Backed(s) && Overlaid(start, s, addr, written) && Apart(s.pages)
    requires vpn in s.pages && s.pages[vpn].frame < |s.m|
    requires addr + |written| == vpn * 4096 + o && o + |chunk| <= 4096
    ensures var f := s.pages[vpn].frame;
            var s' := s.(m := s.m[f := Splice(s.m[f], o, chunk)]);
            Backed(s') && Overlaid(start, s', addr, written + chunk)
  {
    var f := s.pages[vpn].frame;
    var s' := s.(m := s.m[f := Splice(s.m[f], o, chunk)]);
    forall v: nat ensures BackedAt(s', v) {
      assert BackedAt(s, v);
    }
    forall v: nat ensures OverlaidAt(start, s', addr, written + chunk, v) {
      assert OverlaidAt(start, s, addr, written, v) && BackedAt(s', v) && BackedAt(s, v);
    }
  }

  lemma PageOf(a: nat, n: nat)
    ensures a / 4096 * 4096 + a % 4096 == a
    ensures n > 0 ==> Touches(a / 4096, a, n)
  {
  }

  /** The bytes from `offset` to `end` lie in page `vpn`, from `o` on. */
  lemma ChunkCovers(pages: PageMap, addr: nat, offset: nat, end: nat, vpn: nat, o: nat)
    requires Covered(pages, addr, offset) && vpn in pages
    requires addr + offset == vpn * 4096 + o && offset <= end && o + (end - offset) <= 4096
    ensures Covered(pages, addr, end)
  {
    forall v: nat | Touches(v, addr, end) ensures v in pages {
      if !Touches(v, addr, offset) {
        assert v == vpn;
      }
    }
  }

  /** The bytes of a mapped range. */
  ghost function Reads(s: Snapshot, addr: nat, n: nat): (r: seq<byte>)
    requires Backed(s) && Covered(s.pages, addr, n)
    ensures |r| == n && forall i {:trigger r[i]} :: 0 <= i < n ==> r[i] == ByteAt(s, addr + i, addr, n)
  {
    seq<byte>(n, i requires 0 <= i < n => ByteAt(s, addr + i, addr, n))
  }

  ghost function ByteAt(s: Snapshot, a: nat, addr: nat, n: nat): byte
    requires Backed(s) && Covered(s.pages, addr, n) && addr <= a < addr + n
  {
    assert BackedAt(s, a / 4096) && Touches(a / 4096, addr, n);
    s.m[s.pages[a / 4096].frame][a % 4096]
  }

  /** What was laid over a range is what reading it gives. */
  lemma OverlayReads(start: Snapshot, now: Snapshot, addr: nat, data: seq<byte>)
    requires Backed(start) && Backed(now) && Overlaid(start, now, addr, data) && Covered(now.pages, addr, |data|)
    ensures Reads(now, addr, |data|) == data
  {
    forall i | 0 <= i < |data| ensures Reads(now, addr, |data|)[i] == data[i] {
      PageOf(addr + i, 1);
      var v, o := (addr + i) / 4096, (addr + i) % 4096;
      assert OverlaidAt(start, now, addr, data, v) && BackedAt(now, v) && Touches(v, addr, |data|);
      assert now.m[now.pages[v].frame][o] == ByteAfter(start, addr, data, v, o);
      assert v * 4096 + o == addr + i;
    }
  }

  /** The miss branch of the loop: a zeroed frame for the page, or ENOMEM. */
  method Fault(aspace: AddressSpace, vpn: nat, ghost start: Snapshot, ghost addr: nat, ghost written: seq<byte>,
               ghost n: nat,
               ghost log: seq<Supply>)
    returns (ok: bool, ghost log': seq<Supply>)
    requires aspace.Valid() && vpn < VPN_LIMIT && vpn !in aspace.Pages() && Touches(vpn, addr, n)
    requires Logged(log, FirstTouched(addr), CountTouched(addr, n)) && log[|log| - 1] == SupplyOf(Now(aspace))
    requires Backed(start) && Backed(Now(aspace)) && Extended(start.pages, aspace.Pages(), addr, n)
    requires Covered(aspace.Pages(), addr, |written|)
    requires Fresh(start.pages, start.free, aspace.Pages(), aspace.pmm.Free())
    requires Apart(start.pages) ==> Apart(aspace.Pages()) && Overlaid(start, Now(aspace), addr, written)
    modifies aspace, aspace.pmm.bitmap, aspace.pmm`freePages, aspace.pmm`free, aspace.mem
    ensures aspace.Valid() && Backed(Now(aspace)) && Extended(start.pages, aspace.Pages(), addr, n)
    ensures Covered(aspace.Pages(), addr, |written|)
    ensures Fresh(start.pages, start.free, aspace.Pages(), aspace.pmm.Free())
    ensures Apart(start.pages) ==> Apart(aspace.Pages()) && Overlaid(start, Now(aspace), addr, written)
    ensures Logged(log', FirstTouched(addr), CountTouched(addr, n)) && log'[0] == log[0] &&
            log'[|log'| - 1] == SupplyOf(Now(aspace))
    ensures ok ==> aspace.pmm.Free() < old(aspace.pmm.Free())
    ensures !ok ==> Now(aspace) == old(Now(aspace)) && aspace.pmm.Free() == {}
  {
    ghost var now := Now(aspace);
    var frame;
    ghost var one;
    frame, one := MapFresh(aspace, Anonymous(vpn, USER_RW));
    if frame.None? {
      return false, log;
    }
    ok, log' := true, log + [SupplyOf(Now(aspace))];
    FaultKeeps(start, now, Now(aspace), one, addr, written, n, vpn);
    FaultLogged(log, now, Now(aspace), one, addr, n, vpn);
  }

  lemma FaultKeeps(start: Snapshot, s: Snapshot, s': Snapshot, one: Trace, addr: nat, written: seq<byte>, n: nat,
                   vpn: nat)
    requires Backed(start) && Backed(s) && vpn !in s.pages && Touches(vpn, addr, n)
    requires IsTrace(one, Anonymous(vpn, USER_RW)) && one.states == [s, s'] && |one.frames| == 1
    requires forall k {:trigger s.t[k]} :: k in s.t ==> s.t[k] !in s.free
    requires Extended(start.pages, s.pages, addr, n) && Covered(s.pages, addr, |written|)
    requires Fresh(start.pages, start.free, s.pages, s.free)
    requires Apart(start.pages) ==> Apart(s.pages) && Overlaid(start, s, addr, written)
    ensures Backed(s') && s'.free < s.free && Extended(start.pages, s'.pages, addr, n) &&
            Covered(s'.pages, addr, |written|)
    ensures Fresh(start.pages, start.free, s'.pages, s'.free)
    ensures Apart(start.pages) ==> Apart(s'.pages) && Overlaid(start, s', addr, written)
  {
    var frame, mapped := one.frames[0], one.took[0];
    assert StepAt(one, Anonymous(vpn, USER_RW), 0);
    FaultBacked(s, s', vpn, frame, mapped);
    FaultExtended(start.pages, s.pages, addr, n, vpn, frame);
    FaultFresh(start, s, s', vpn, frame, mapped);
    if Apart(start.pages) {
      FaultOverlaid(start, s, s', addr, written, vpn, frame, mapped);
    }
  }

  /** The hit branch: part of one page. */
  method StoreChunk(aspace: AddressSpace, frame: nat, o: nat, chunk: seq<byte>, ghost vpn: nat,
                    ghost start: Snapshot, ghost addr: nat, ghost written: seq<byte>)
    requires aspace.Valid() && Backed(start) && Backed(Now(aspace))
    requires vpn in aspace.Pages() && frame == aspace.Pages()[vpn].frame && addr + |written| == vpn * 4096 + o &&
             o + |chunk| <= 4096
    requires Apart(start.pages) ==> Apart(aspace.Pages()) && Overlaid(start, Now(aspace), addr, written)
    modifies aspace.mem
    ensures aspace.Valid() && Backed(Now(aspace))
    ensures aspace.Pages() == old(aspace.Pages())
    ensures Apart(start.pages) ==> Overlaid(start, Now(aspace), addr, written + chunk)
  {
    ghost var s := Now(aspace);
    assert BackedAt(s, vpn);
    ChunkBacked(s, frame, Splice(aspace.mem.frames[frame], o, chunk));
    if Apart(start.pages) {
      ChunkOverlaid(start, s, addr, written, chunk, vpn, o);
    }
    aspace.FillFrame(frame, Splice(aspace.mem.frames[frame], o, chunk));
    assert Now(aspace) == s.(m := s.m[frame := Splice(s.m[frame], o, chunk)]);
  }

  lemma ChunkBacked(s: Snapshot, frame: nat, content: Frame)
    requires Backed(s) && frame < |s.m|
    ensures Backed(s.(m := s.m[frame := content]))
  {
    var s' := s.(m := s.m[frame := content]);
    forall v: nat ensures BackedAt(s', v) {
      assert BackedAt(s, v);
    }
  }

  /** The copy loop, with a log of the supply of frames after each fault. */
  method CopyLoop(aspace: AddressSpace, addr: nat, data: seq<byte>) returns (ok: bool, ghost done: nat,
                  ghost log: seq<Supply>)
    requires aspace.Valid() && Backed(Now(aspace)) && addr + |data| <= VA_LIMIT
    modifies aspace, aspace.pmm.bitmap, aspace.pmm`freePages, aspace.pmm`free, aspace.mem
    ensures aspace.Valid() && Copying(old(Now(aspace)), Now(aspace), addr, data, done)
    ensures Logged(log, FirstTouched(addr), CountTouched(addr, |data|)) && log[0] == SupplyOf(old(Now(aspace)))
    ensures log[|log| - 1] == SupplyOf(Now(aspace))
    ensures ok <==> done == |data|
    ensures !ok ==>
              && aspace.pmm.Free() == {} && (addr + done) / 4096 !in aspace.Pages()
              && Touches((addr + done) / 4096, addr, |data|)
  {
    ghost var start := Now(aspace);
    var offset: nat := 0;
    StartOverlaid(start, addr, |data|);
    log := [SupplyOf(start)];
    while offset < |data|
      invariant offset <= |data| && aspace.Valid() && Copying(start, Now(aspace), addr, data, offset)
      invariant Logged(log, FirstTouched(addr), CountTouched(addr, |data|)) && log[0] == SupplyOf(start) &&
                log[|log| - 1] == SupplyOf(Now(aspace))
      decreases |data| - offset, aspace.pmm.Free()
    {
      var next;
      ok, next, log := CopyStep(aspace, addr, data, offset, start, log);
      if !ok {
        return false, offset, log;
      }
      offset := next;
    }
    return true, offset, log;
  }

  /**
   * Writes `data` to user memory, adding zeroed pages where none are mapped. `done` bytes arrive; the call
   * fails only when no frame is left for the page of the next byte.
   */
  method CopyToUser(aspace: AddressSpace, addr: nat, data: seq<byte>) returns (r: Result<(), nat>, ghost done: nat)
    requires aspace.Valid() && Backed(Now(aspace)) && addr + |data| <= VA_LIMIT
    modifies aspace, aspace.pmm.bitmap, aspace.pmm`freePages, aspace.pmm`free, aspace.mem
    ensures aspace.Valid() && Copying(old(Now(aspace)), Now(aspace), addr, data, done)
    ensures r.Ok? <==> done == |data|
    ensures r.Ok? <==> Enough(SupplyOf(old(Now(aspace))), FirstTouched(addr), CountTouched(addr, |data|))
    ensures r.Err? ==> r.error == ENOMEM && aspace.pmm.Free() == {} && (addr + done) / 4096 !in aspace.Pages()
  {
    var ok;
    ghost var log;
    ok, done, log := CopyLoop(aspace, addr, data);
    if ok {
      Supplied(log, addr, |data|);
      return Ok(()), done;
    }
    Unsupplied(log, addr, |data|, (addr + done) / 4096);
    return Err(ENOMEM), done;
  }

  /**
   * `offset` bytes have arrived: old translations stay, added pages are zeroed user pages of the range with frames of
   * their own, and if pages have distinct frames, user memory is what it was with those bytes laid over it.
   */
  ghost predicate Copying(start: Snapshot, now: Snapshot, addr: nat, data: seq<byte>, offset: nat) {
    && offset <= |data| && Backed(start) && Backed(now)
    && Extended(start.pages, now.pages, addr, |data|) && Covered(now.pages, addr, offset)
    && Fresh(start.pages, start.free, now.pages, now.free)
    && (Apart(start.pages) ==> Apart(now.pages) && Overlaid(start, now, addr, data[..offset]))
  }

  /** One iteration: stores a chunk, or adds the missing page and stays at the same offset. */
  method CopyStep(aspace: AddressSpace, addr: nat, data: seq<byte>, offset: nat, ghost start: Snapshot,
                  ghost log: seq<Supply>)
    returns (ok: bool, next: nat, ghost log': seq<Supply>)
    requires aspace.Valid() && addr + |data| <= VA_LIMIT && offset < |data| &&
             Copying(start, Now(aspace), addr, data, offset)
    requires Logged(log, FirstTouched(addr), CountTouched(addr, |data|)) && log[|log| - 1] == SupplyOf(Now(aspace))
    modifies aspace, aspace.pmm.bitmap, aspace.pmm`freePages, aspace.pmm`free, aspace.mem
    ensures aspace.Valid() && Copying(start, Now(aspace), addr, data, next)
    ensures Logged(log', FirstTouched(addr), CountTouched(addr, |data|)) && log'[0] == log[0] &&
            log'[|log'| - 1] == SupplyOf(Now(aspace))
    ensures ok ==> next > offset || (next == offset && aspace.pmm.Free() < old(aspace.pmm.Free()))
    ensures !ok ==> next == offset && aspace.pmm.Free() == {}
    ensures !ok ==> (addr + offset) / 4096 !in aspace.Pages() && Touches((addr + offset) / 4096, addr, |data|)
  {
    var uaddr := addr + offset;
    var vpn, o := uaddr / 4096, uaddr % 4096;
    PageOf(uaddr, |data| - offset);
    var pa := aspace.TranslatePage(vpn);
    if pa.Some? {
      next := offset + Min(4096 - o, |data| - offset);
      StoreNext(aspace, pa.value, vpn, o, addr, data, offset, next, start);
      return true, next, log;
    }
    next := offset;
    ok, log' := Fault(aspace, vpn, start, addr, data[..offset], |data|, log);
  }

  /** Stores the bytes from `offset` to `next`, all in one page. */
  method StoreNext(aspace: AddressSpace, frame: nat, ghost vpn: nat, o: nat, ghost addr: nat, data: seq<byte>,
                   offset: nat, next: nat, ghost start: Snapshot)
    requires aspace.Valid() && Copying(start, Now(aspace), addr, data, offset) && offset <= next <= |data|
    requires vpn in aspace.Pages() && frame == aspace.Pages()[vpn].frame
    requires addr + offset == vpn * 4096 + o && o + (next - offset) <= 4096
    modifies aspace.mem
    ensures aspace.Valid() && aspace.Pages() == old(aspace.Pages())
    ensures Copying(start, Now(aspace), addr, data, next)
  {
    StoreChunk(aspace, frame, o, data[offset..next], vpn, start, addr, data[..offset]);
    ChunkCovers(aspace.Pages(), addr, offset, next, vpn, o);
    assert data[..offset] + data[offset..next] == data[..next];
  }

  /** The kernel's own write through a page table: no page is added, and it stops at the first unmapped one. */
  method WriteMapped(aspace: AddressSpace, addr: nat, data: seq<byte>) returns (ok: bool, ghost done: nat)
    requires aspace.Valid() && Backed(Now(aspace)) && addr + |data| <= VA_LIMIT
    modifies aspace.mem
    ensures aspace.Valid() && Backed(Now(aspace)) && aspace.Pages() == old(aspace.Pages())
    ensures ok <==> Covered(aspace.Pages(), addr, |data|)
    ensures done <= |data| && (ok <==> done == |data|)
    ensures Apart(aspace.Pages()) ==> Overlaid(old(Now(aspace)), Now(aspace), addr, data[..done])
  {
    ghost var start := Now(aspace);
    var offset: nat := 0;
    StartOverlaid(start, addr, |data|);
    while offset < |data|
      invariant offset <= |data| && aspace.Valid() && Backed(Now(aspace)) && aspace.Pages() == start.pages
      invariant Covered(start.pages, addr, offset)
      invariant Apart(start.pages) ==> Overlaid(start, Now(aspace), addr, data[..offset])
    {
      var uaddr := addr + offset;
      PageOf(uaddr, |data| - offset);
      var pa := aspace.TranslatePage(uaddr / 4096);
      if pa.None? {
        assert Touches(uaddr / 4096, addr, |data|);
        return false, offset;
      }
      var chunk := Min(4096 - uaddr % 4096, |data| - offset);
      StoreChunk(aspace, pa.value, uaddr % 4096, data[offset..offset + chunk], uaddr / 4096, start, addr,
                 data[..offset]);
      ChunkCovers(aspace.Pages(), addr, offset, offset + chunk, uaddr / 4096, uaddr % 4096);
      assert data[..offset] + data[offset..offset + chunk] == data[..offset + chunk];
      offset := offset + chunk;
    }
    return true, offset;
  }

  lemma StartOverlaid(start: Snapshot, addr: nat, n: nat)
    requires Backed(start)
    ensures Overlaid(start, start, addr, []) && Extended(start.pages, start.pages, addr, n) &&
            Covered(start.pages, addr, 0)
  {
    forall v: nat ensures OverlaidAt(start, start, addr, [], v) {
      assert BackedAt(start, v);
    }
    forall v: nat ensures ExtendedAt(start.pages, start.pages, addr, n, v) {
    }
  }

  /** Reads a range into `buf`; fails exactly when a page of the range is unmapped. */
  method CopyFromUser(aspace: AddressSpace, addr: nat, buf: array<byte>) returns (r: Result<(), nat>)
    requires aspace.Valid() && Backed(Now(aspace)) && addr + buf.Length <= VA_LIMIT
    modifies buf
    ensures r == if Covered(aspace.Pages(), addr, buf.Length) then Ok(()) else Err(EFAULT)
    ensures r.Ok? ==> buf[..] == Reads(Now(aspace), addr, buf.Length)
  {
    var offset: nat := 0;
    while offset < buf.Length
      invariant offset <= buf.Length && aspace.Valid() && Covered(aspace.Pages(), addr, offset)
      invariant buf[..offset] == Reads(Now(aspace), addr, offset)
    {
      var uaddr := addr + offset;
      PageOf(uaddr, buf.Length - offset);
      var pa := aspace.TranslatePage(uaddr / 4096);
      if pa.None? {
        assert Touches(uaddr / 4096, addr, buf.Length);
        return Err(EFAULT);
      }
      var chunk := Min(4096 - uaddr % 4096, buf.Length - offset);
      assert BackedAt(Now(aspace), uaddr / 4096);
      LoadChunk(buf, offset, aspace.mem.frames[pa.value], uaddr % 4096, chunk);
      ChunkCovers(aspace.Pages(), addr, offset, offset + chunk, uaddr / 4096, uaddr % 4096);
      ReadsAppend(Now(aspace), addr, offset, chunk);
      offset := offset + chunk;
    }
    assert buf[..offset] == buf[..];
    return Ok(());
  }

  method LoadChunk(buf: array<byte>, offset: nat, content: Frame, o: nat, chunk: nat)
    requires offset + chunk <= buf.Length && o + chunk <= 4096
    modifies buf
    ensures buf[..offset + chunk] == old(buf[..offset]) + content[o..o + chunk]
  {
    forall j | 0 <= j < chunk {
      buf[offset + j] := content[o + j];
    }
  }

  lemma ReadsAppend(s: Snapshot, addr: nat, offset: nat, chunk: nat)
    requires Backed(s) && Covered(s.pages, addr, offset) && Covered(s.pages, addr, offset + chunk)
    requires (addr + offset) / 4096 in s.pages && (addr + offset) % 4096 + chunk <= 4096
    ensures s.pages[(addr + offset) / 4096].frame < |s.m|
    ensures var o := (addr + offset) % 4096;
            Reads(s, addr, offset + chunk) ==
              Reads(s, addr, offset) + s.m[s.pages[(addr + offset) / 4096].frame][o..o + chunk]
  {
    var v, o := (addr + offset) / 4096, (addr + offset) % 4096;
    assert BackedAt(s, v);
    var r := Reads(s, addr, offset + chunk);
    forall i | offset <= i < offset + chunk ensures r[i] == s.m[s.pages[v].frame][o + i - offset] {
      assert (addr + i) / 4096 == v && (addr + i) % 4096 == o + i - offset;
    }
  }

  /** A written range reads back as written, across page boundaries. */
  method RoundTrip(aspace: AddressSpace, addr: nat, data: seq<byte>, buf: array<byte>) returns (w: Result<(), nat>,
                   r: Result<(), nat>)
    requires aspace.Valid() && Backed(Now(aspace)) && Apart(aspace.Pages()) && addr + |data| <= VA_LIMIT &&
             buf.Length == |data|
    modifies aspace, aspace.pmm.bitmap, aspace.pmm`freePages, aspace.pmm`free, aspace.mem, buf
    ensures w.Ok? ==> r == Ok(()) && buf[..] == data
  {
    ghost var start := Now(aspace);
    ghost var done;
    w, done := CopyToUser(aspace, addr, data);
    if w.Ok? {
      assert data[..done] == data;
      OverlayReads(start, Now(aspace), addr, data);
    }
    r := CopyFromUser(aspace, addr, buf);
  }

  // How many frames a write needs.

  /** The pages a range of bytes touches. */
  function FirstTouched(addr: nat): nat { addr / 4096 }

  function CountTouched(addr: nat, n: nat): nat {
    if n == 0 then 0 else (addr + n - 1) / 4096 - addr / 4096 + 1
  }

  lemma TouchedRange(v: nat, addr: nat, n: nat)
    ensures Touches(v, addr, n) <==> FirstTouched(addr) <= v < FirstTouched(addr) + CountTouched(addr, n)
  {
  }

  /** The unmapped pages among `n` from `first` on. */
  ghost function Missing(pages: PageMap, first: nat, n: nat): set<nat> {
    if n == 0 then {}
    else if first + n - 1 in pages then Missing(pages, first, n - 1)
    else Missing(pages, first, n - 1) + {first + n - 1}
  }

  /** The tables those pages need. */
  ghost function MissingPaths(pages: PageMap, first: nat, n: nat): set<Key> {
    if n == 0 then {}
    else if first + n - 1 in pages then MissingPaths(pages, first, n - 1)
    else MissingPaths(pages, first, n - 1) + Path(first + n - 1)
  }

  lemma {:induction false} MissingMembers(pages: PageMap, first: nat, n: nat)
    ensures forall v :: v in Missing(pages, first, n) <==> first <= v < first + n && v !in pages
  {
    if n > 0 {
      MissingMembers(pages, first, n - 1);
    }
  }

  lemma {:induction false} MissingPathsMember(pages: PageMap, first: nat, n: nat, v: nat)
    requires first <= v < first + n && v !in pages
    ensures Path(v) <= MissingPaths(pages, first, n)
  {
    if v < first + n - 1 {
      MissingPathsMember(pages, first, n - 1, v);
    }
  }

  lemma {:induction false} NothingMissing(pages: PageMap, first: nat, n: nat)
    requires forall v :: first <= v < first + n ==> v in pages
    ensures Missing(pages, first, n) == {} && MissingPaths(pages, first, n) == {}
  {
    if n > 0 {
      NothingMissing(pages, first, n - 1);
    }
  }

  lemma {:induction false} MissingPathsUpdate(pages: PageMap, first: nat, n: nat, v: nat, to: Mapping)
    requires v !in pages
    ensures MissingPaths(pages, first, n) ==
              MissingPaths(pages[v := to], first, n) + (if first <= v < first + n then Path(v) else {})
  {
    if n > 0 {
      MissingPathsUpdate(pages, first, n - 1, v, to);
    }
  }

  /** What the supply of frames for a range depends on. */
  datatype Supply = Supply(free: set<nat>, keys: set<Key>, pages: PageMap)

  ghost function SupplyOf(s: Snapshot): Supply {
    Supply(s.free, s.t.Keys, s.pages)
  }

  /** There are frames for the pages a range lacks and for the tables those pages lack. */
  ghost predicate Enough(s: Supply, first: nat, n: nat) {
    |Missing(s.pages, first, n)| + |MissingPaths(s.pages, first, n) - s.keys| <= |s.free|
  }

  /** The supplies after each fault of a call; a fault neither makes nor breaks what the range needs. */
  ghost predicate LoggedAt(log: seq<Supply>, first: nat, n: nat, i: nat)
    requires i + 1 < |log|
  {
    Enough(log[i], first, n) <==> Enough(log[i + 1], first, n)
  }

  ghost predicate Logged(log: seq<Supply>, first: nat, n: nat) {
    |log| > 0 && forall i: nat {:trigger LoggedAt(log, first, n, i)} :: i + 1 < |log| ==> LoggedAt(log, first, n, i)
  }

  lemma {:induction false} LoggedEnds(log: seq<Supply>, first: nat, n: nat, i: nat)
    requires Logged(log, first, n) && i < |log|
    ensures Enough(log[0], first, n) <==> Enough(log[i], first, n)
  {
    if i > 0 {
      LoggedEnds(log, first, n, i - 1);
      assert LoggedAt(log, first, n, i - 1);
    }
  }

  lemma LogAppend(log: seq<Supply>, s: Supply, first: nat, n: nat)
    requires Logged(log, first, n) && (Enough(log[|log| - 1], first, n) <==> Enough(s, first, n))
    ensures Logged(log + [s], first, n)
  {
    var log' := log + [s];
    forall i: nat | i + 1 < |log'| ensures LoggedAt(log', first, n, i) {
      if i + 1 < |log| {
        assert LoggedAt(log, first, n, i);
      }
    }
  }

  lemma FaultLogged(log: seq<Supply>, s: Snapshot, s': Snapshot, one: Trace, addr: nat, n: nat, vpn: nat)
    requires Logged(log, FirstTouched(addr), CountTouched(addr, n)) && log[|log| - 1] == SupplyOf(s)
    requires vpn !in s.pages && Touches(vpn, addr, n)
    requires IsTrace(one, Anonymous(vpn, USER_RW)) && one.states == [s, s'] && |one.frames| == 1
    requires forall k {:trigger s.t[k]} :: k in s.t ==> s.t[k] !in s.free
    ensures Logged(log + [SupplyOf(s')], FirstTouched(addr), CountTouched(addr, n))
  {
    TouchedRange(vpn, addr, n);
    FaultEnough(s, s', one, FirstTouched(addr), CountTouched(addr, n), vpn);
    LogAppend(log, SupplyOf(s'), FirstTouched(addr), CountTouched(addr, n));
  }

  lemma Supplied(log: seq<Supply>, addr: nat, n: nat)
    requires Logged(log, FirstTouched(addr), CountTouched(addr, n)) && Covered(log[|log| - 1].pages, addr, n)
    ensures Enough(log[0], FirstTouched(addr), CountTouched(addr, n))
  {
    var first, count := FirstTouched(addr), CountTouched(addr, n);
    var pages := log[|log| - 1].pages;
    forall v: nat | first <= v < first + count ensures v in pages {
      TouchedRange(v, addr, n);
    }
    LoggedEnds(log, first, count, |log| - 1);
    NothingMissing(pages, first, count);
  }

  lemma Unsupplied(log: seq<Supply>, addr: nat, n: nat, vpn: nat)
    requires Logged(log, FirstTouched(addr), CountTouched(addr, n)) && log[|log| - 1].free == {}
    requires vpn !in log[|log| - 1].pages && Touches(vpn, addr, n)
    ensures !Enough(log[0], FirstTouched(addr), CountTouched(addr, n))
  {
    var first, count := FirstTouched(addr), CountTouched(addr, n);
    TouchedRange(vpn, addr, n);
    LoggedEnds(log, first, count, |log| - 1);
    NoFrameNotEnough(log[|log| - 1], first, count, vpn);
  }

  lemma NoFrameNotEnough(s: Supply, first: nat, n: nat, vpn: nat)
    requires s.free == {} && vpn !in s.pages && first <= vpn < first + n
    ensures !Enough(s, first, n)
  {
    NeedAtLeast(s.pages, first, n, vpn, s.keys);
  }

  /** Mapping one of the missing pages pays exactly for that page and its tables. */
  lemma NeedShrinks(pages: PageMap, first: nat, n: nat, v: nat, to: Mapping, before: set<Key>, after: set<Key>)
    requires first <= v < first + n && v !in pages
    requires before <= after && after - before <= Path(v) && Path(v) <= after
    ensures |Missing(pages, first, n)| == |Missing(pages[v := to], first, n)| + 1
    ensures |MissingPaths(pages, first, n) - before| ==
              |after - before| + |MissingPaths(pages[v := to], first, n) - after|
  {
    MissingMembers(pages, first, n);
    MissingMembers(pages[v := to], first, n);
    assert Missing(pages, first, n) == Missing(pages[v := to], first, n) + {v};
    MissingPathsUpdate(pages, first, n, v, to);
    SplitNeed(MissingPaths(pages[v := to], first, n), Path(v), before, after);
  }

  lemma SplitNeed(rest: set<Key>, path: set<Key>, before: set<Key>, after: set<Key>)
    requires before <= after && after - before <= path && path <= after
    ensures |rest + path - before| == |after - before| + |rest - after|
  {
    assert rest + path - before == (after - before) + (rest - after);
    assert (after - before) !! (rest - after);
  }

  lemma NeedAtLeast(pages: PageMap, first: nat, n: nat, v: nat, before: set<Key>)
    requires first <= v < first + n && v !in pages
    ensures |Missing(pages, first, n)| >= 1 && |MissingPaths(pages, first, n) - before| >= |Path(v) - before|
  {
    MissingMembers(pages, first, n);
    MissingPathsMember(pages, first, n, v);
    SubsetCardinality({v}, Missing(pages, first, n));
    SubsetCardinality(Path(v) - before, MissingPaths(pages, first, n) - before);
  }

  lemma FaultCounts(s: Snapshot, s': Snapshot, one: Trace, vpn: nat)
    requires IsTrace(one, Anonymous(vpn, USER_RW)) && one.states == [s, s'] && |one.frames| == 1
    requires forall k {:trigger s.t[k]} :: k in s.t ==> s.t[k] !in s.free
    ensures s.t.Keys <= s'.t.Keys && s'.t.Keys - s.t.Keys <= Path(vpn)
    ensures one.took[0] ==> Path(vpn) <= s'.t.Keys && |s'.free| + 1 + |s'.t.Keys - s.t.Keys| == |s.free|
    ensures !one.took[0] ==> |s.free| < 1 + |Path(vpn) - s.t.Keys|
  {
    var q := Anonymous(vpn, USER_RW);
    OnePath(vpn);
    OneDone(one);
    TraceAccounts(one, q, 1);
    RangeSucceeds(one, q, 1);
    if one.took[0] {
      RangeComplete(one, q, 1);
    }
  }

  lemma OnePath(vpn: nat)
    ensures Paths(vpn, 1) == Path(vpn)
  {
    assert Paths(vpn, 0) == {};
  }

  lemma OneDone(one: Trace)
    requires |one.took| == 1
    ensures Done(one, 1) == if one.took[0] then 1 else 0
  {
    assert Done(one, 0) == 0;
  }

  /** A fault neither makes nor breaks the supply for the rest of the range. */
  lemma FaultEnough(s: Snapshot, s': Snapshot, one: Trace, first: nat, n: nat, vpn: nat)
    requires vpn !in s.pages && first <= vpn < first + n
    requires IsTrace(one, Anonymous(vpn, USER_RW)) && one.states == [s, s'] && |one.frames| == 1
    requires forall k {:trigger s.t[k]} :: k in s.t ==> s.t[k] !in s.free
    ensures Enough(SupplyOf(s), first, n) <==> Enough(SupplyOf(s'), first, n)
  {
    assert StepAt(one, Anonymous(vpn, USER_RW), 0);
    FaultCounts(s, s', one, vpn);
    if one.took[0] {
      NeedShrinks(s.pages, first, n, vpn, Granted(one.frames[0], USER_RW), s.t.Keys, s'.t.Keys);
    } else {
      NeedAtLeast(s.pages, first, n, vpn, s.t.Keys);
    }
  }
}

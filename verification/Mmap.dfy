/** The user memory system calls (kernel/src/mm/mmap.rs) over page tables, frames and areas. */
module Mmap {
  import opened Common
  import opened PageTable
  import opened Paging
  import opened Pmm
  import opened Vmm
  import opened MapRange

  // Unmapping a range.

  /** The frames the unmapping loop frees for its first `n` pages. */
  ghost function Released(pages: PageMap, first: nat, shared: seq<bool>, n: nat): set<nat>
    requires n <= |shared|
  {
    if n == 0 then {}
    else if first + n - 1 in pages && !shared[n - 1] then
      Released(pages, first, shared, n - 1) + {pages[first + n - 1].frame}
    else Released(pages, first, shared, n - 1)
  }

  /** A page that will be freed holds a frame in use that no page freed before it held. */
  ghost predicate ReleasableAt(pages: PageMap, first: nat, shared: seq<bool>, free: set<nat>, t: Tables, i: nat)
    requires i < |shared|
  {
    first + i in pages && !shared[i] ==>
      var f := pages[first + i].frame; f < MAX_PAGES && f !in t.Values && f !in free + Released(pages, first, shared, i)
  }

  ghost predicate Releasable(pages: PageMap, first: nat, shared: seq<bool>, free: set<nat>, t: Tables) {
    forall i: nat {:trigger ReleasableAt(pages, first, shared, free, t, i)} :: i < |shared| ==>
      ReleasableAt(pages, first, shared, free, t, i)
  }

  lemma {:induction false} ReleasedMembers(pages: PageMap, first: nat, shared: seq<bool>, n: nat)
    requires n <= |shared|
    ensures forall f :: f in Released(pages, first, shared, n) <==>
              exists i {:trigger shared[i]} ::
                0 <= i < n && first + i in pages && !shared[i] && pages[first + i].frame == f
  {
    if n > 0 {
      ReleasedMembers(pages, first, shared, n - 1);
      var s := shared[n - 1];
    }
  }

  lemma ReleasedStep(free: set<nat>, pages: PageMap, first: nat, shared: seq<bool>, i: nat, vpn: nat)
    requires i < |shared| && vpn == first + i
    ensures var f := free + Released(pages, first, shared, i);
            free + Released(pages, first, shared, i + 1) ==
              if vpn in pages && !shared[i] then f + {pages[vpn].frame} else f
  {
  }

  lemma ReleasedNone(free: set<nat>, pages: PageMap, first: nat, shared: seq<bool>)
    ensures free + Released(pages, first, shared, 0) == free
    ensures WithoutRange(pages, first, 0) == pages
  {
  }

  method UnmapOne(aspace: AddressSpace, vpn: nat, shared: bool)
    requires aspace.Valid() && vpn < VPN_LIMIT
    requires vpn in aspace.Pages() && !shared ==> aspace.Pages()[vpn].frame < MAX_PAGES
    requires vpn in aspace.Pages() && !shared ==> aspace.Pages()[vpn].frame !in aspace.tables.Values
    requires vpn in aspace.Pages() && !shared ==> aspace.Pages()[vpn].frame !in aspace.pmm.Free()
    modifies aspace.pmm.bitmap, aspace.pmm`freePages, aspace.pmm`free, aspace.mem, aspace`pages
    ensures aspace.Valid() && aspace.Pages() == old(aspace.Pages()) - {vpn}
    ensures aspace.pmm.Free() == if vpn in old(aspace.Pages()) && !shared
                                 then old(aspace.pmm.Free()) + {old(aspace.Pages())[vpn].frame}
                                 else old(aspace.pmm.Free())
  {
    var phys := aspace.UnmapPage(vpn);
    if phys.Some? {
      if !shared {
        aspace.ReleaseFrame(phys.value);
      }
    }
  }

  /** Unmaps the pages of a range, freeing the frames of those not shared. */
  method UnmapPages(aspace: AddressSpace, first: nat, shared: seq<bool>)
    requires aspace.Valid() && first + |shared| <= VPN_LIMIT
    requires Releasable(aspace.Pages(), first, shared, aspace.pmm.Free(), aspace.tables)
    modifies aspace.pmm.bitmap, aspace.pmm`freePages, aspace.pmm`free, aspace.mem, aspace`pages
    ensures aspace.Valid() && aspace.Pages() == WithoutRange(old(aspace.Pages()), first, |shared|)
    ensures aspace.pmm.Free() == old(aspace.pmm.Free()) + Released(old(aspace.Pages()), first, shared, |shared|)
  {
    ghost var pages, free := aspace.Pages(), aspace.pmm.Free();
    ReleasedNone(free, pages, first, shared);
    for i := 0 to |shared|
      invariant aspace.Valid() && Unmapped(pages, free, first, shared, i, aspace.Pages(), aspace.pmm.Free())
    {
      ghost var p, f := aspace.Pages(), aspace.pmm.Free();
      var vpn := first + i;
      UnmapReady(pages, free, aspace.tables, first, shared, i, vpn, p, f);
      UnmapOne(aspace, vpn, shared[i]);
      UnmapStep(pages, free, first, shared, i, vpn, p, f, aspace.Pages(), aspace.pmm.Free());
    }
  }

  /** The first `n` pages are gone and their private frames free. */
  ghost predicate Unmapped(pages: PageMap, free: set<nat>, first: nat, shared: seq<bool>, n: nat, p: PageMap,
                           f: set<nat>)
    requires n <= |shared|
  {
    p == WithoutRange(pages, first, n) && f == free + Released(pages, first, shared, n)
  }

  lemma UnmapReady(pages: PageMap, free: set<nat>, t: Tables, first: nat, shared: seq<bool>, i: nat, vpn: nat,
                   p: PageMap, f: set<nat>)
    requires Releasable(pages, first, shared, free, t) && vpn == first + i
    requires i < |shared| && Unmapped(pages, free, first, shared, i, p, f)
    ensures vpn in p && !shared[i] ==> p[vpn].frame < MAX_PAGES && p[vpn].frame !in t.Values && p[vpn].frame !in f
  {
    assert ReleasableAt(pages, first, shared, free, t, i);
  }

  lemma UnmapPagesStep(pages: PageMap, first: nat, i: nat, vpn: nat, p: PageMap, p': PageMap)
    requires p == WithoutRange(pages, first, i) && vpn == first + i && p' == p - {vpn}
    ensures p' == WithoutRange(pages, first, i + 1)
    ensures vpn in p <==> vpn in pages
    ensures vpn in p ==> p[vpn] == pages[vpn]
  {
    WithoutRangeStep(pages, first, i);
  }

  lemma UnmapStep(pages: PageMap, free: set<nat>, first: nat, shared: seq<bool>, i: nat, vpn: nat, p: PageMap,
                  f: set<nat>, p': PageMap, f': set<nat>)
    requires i < |shared| && Unmapped(pages, free, first, shared, i, p, f)
    requires vpn == first + i && p' == p - {vpn} && f' == if vpn in p && !shared[i] then f + {p[vpn].frame} else f
    ensures Unmapped(pages, free, first, shared, i + 1, p', f')
  {
    UnmapPagesStep(pages, first, i, vpn, p, p');
    ReleasedStep(free, pages, first, shared, i, vpn);
  }

  // Remapping a range with other attributes.

  ghost function WithAttr(pages: PageMap, first: nat, n: nat, attr: PageAttr): PageMap {
    imap v | v in pages :: if first <= v < first + n then Granted(pages[v].frame, attr) else pages[v]
  }

  lemma WithAttrStep(pages: PageMap, first: nat, i: nat, attr: PageAttr)
    requires first + i in pages
    ensures WithAttr(pages, first, i, attr)[first + i := Granted(pages[first + i].frame, attr)] ==
              WithAttr(pages, first, i + 1, attr)
    ensures first + i in WithAttr(pages, first, i, attr)
  {
  }

  /** Where no table is lacking, growing changes nothing. */
  lemma GrewNothing(free: set<nat>, m: Ram, t: Tables, free': set<nat>, m': Ram, t': Tables, keys: set<Key>)
    requires Grew(free, m, t, free', m', t', {}, keys) && keys <= t.Keys
    requires forall k {:trigger t[k]} :: k in t ==> t[k] !in free
    ensures t' == t && free' == free
  {
    KeysGrow(free, m, t, free', m', t', {}, keys);
    assert forall k :: k in t' ==> t'[k] == t[k];
    forall f | f in free ensures f in free' {
      assert f !in t'.Values;
    }
  }

  lemma MappedHasPath(m: Ram, root: nat, t: Tables, p: PageMap, vpn: nat)
    requires Tree(m, root, t) && Represents(m, t, p) && vpn in p
    ensures KeyOf(vpn, 3) in t && Path(vpn) <= t.Keys
  {
    assert Flat(m, t, vpn).Some?;
    PathPresent(m, root, t, vpn);
  }

  method RemapOne(aspace: AddressSpace, vpn: nat, frame: nat, attr: PageAttr)
    requires aspace.Valid() && vpn < VPN_LIMIT && frame < FRAME_LIMIT && vpn in aspace.Pages()
    modifies aspace, aspace.pmm.bitmap, aspace.pmm`freePages, aspace.pmm`free, aspace.mem
    ensures aspace.Valid() && aspace.Pages() == old(aspace.Pages())[vpn := Granted(frame, attr)]
    ensures aspace.tables == old(aspace.tables) && aspace.pmm.Free() == old(aspace.pmm.Free())
    ensures forall f {:trigger aspace.mem.frames[f]} :: 0 <= f < MAX_PAGES && f !in aspace.tables.Values ==>
              aspace.mem.frames[f] == old(aspace.mem.frames)[f]
  {
    MappedHasPath(aspace.mem.frames, aspace.root, aspace.tables, aspace.pages, vpn);
    ghost var free, m, t := aspace.pmm.Free(), aspace.mem.frames, aspace.tables;
    var ok := aspace.MapPage(vpn, frame, attr);
    GrewNothing(free, m, t, aspace.pmm.Free(), aspace.mem.frames, aspace.tables, Path(vpn));
  }

  ghost predicate AllMapped(pages: PageMap, first: nat, n: nat) {
    forall v :: first <= v < first + n ==> v in pages
  }

  /** The first loop of `do_mprotect`: the frames of all pages of the range, unless one is unmapped. */
  method CollectPages(aspace: AddressSpace, first: nat, n: nat) returns (r: Option<seq<(nat, nat)>>)
    requires aspace.Valid() && first + n <= VPN_LIMIT
    ensures r.Some? <==> AllMapped(aspace.Pages(), first, n)
    ensures r.Some? ==> |r.value| == n && Listed(r.value, aspace.Pages(), first)
  {
    var pagePhys: seq<(nat, nat)> := [];
    for i := 0 to n
      invariant |pagePhys| == i && Listed(pagePhys, aspace.Pages(), first)
      invariant forall v :: first <= v < first + i ==> v in aspace.Pages()
    {
      var vpn: nat := first + i;
      var frame := aspace.TranslatePage(vpn);
      if frame.None? {
        return None;
      }
      pagePhys := pagePhys + [(vpn, frame.value)];
    }
    return Some(pagePhys);
  }

  ghost predicate Listed(pagePhys: seq<(nat, nat)>, pages: PageMap, first: nat) {
    forall i {:trigger pagePhys[i]} :: 0 <= i < |pagePhys| ==>
      first + i in pages && pagePhys[i] == (first + i, pages[first + i].frame) && pagePhys[i].1 < FRAME_LIMIT
  }

  /** The second loop of `do_mprotect`: remaps every page in place. Nothing is allocated and nothing fails. */
  method RemapPages(aspace: AddressSpace, pagePhys: seq<(nat, nat)>, ghost first: nat, attr: PageAttr)
    requires aspace.Valid() && first + |pagePhys| <= VPN_LIMIT && Listed(pagePhys, aspace.Pages(), first)
    modifies aspace, aspace.pmm.bitmap, aspace.pmm`freePages, aspace.pmm`free, aspace.mem
    ensures aspace.Valid() && aspace.Pages() == WithAttr(old(aspace.Pages()), first, |pagePhys|, attr)
    ensures aspace.tables == old(aspace.tables) && aspace.pmm.Free() == old(aspace.pmm.Free())
    ensures forall f {:trigger aspace.mem.frames[f]} :: 0 <= f < MAX_PAGES && f !in aspace.tables.Values ==>
              aspace.mem.frames[f] == old(aspace.mem.frames)[f]
  {
    ghost var pages := aspace.Pages();
    WithAttrNone(pages, first, attr);
    for i := 0 to |pagePhys|
      invariant aspace.Valid() && aspace.Pages() == WithAttr(pages, first, i, attr)
      invariant aspace.tables == old(aspace.tables) && aspace.pmm.Free() == old(aspace.pmm.Free())
      invariant forall f {:trigger aspace.mem.frames[f]} :: 0 <= f < MAX_PAGES && f !in aspace.tables.Values ==>
                  aspace.mem.frames[f] == old(aspace.mem.frames)[f]
    {
      assert pagePhys[i].0 == first + i;
      WithAttrStep(pages, first, i, attr);
      RemapOne(aspace, pagePhys[i].0, pagePhys[i].1, attr);
    }
  }

  lemma WithAttrNone(pages: PageMap, first: nat, attr: PageAttr)
    ensures WithAttr(pages, first, 0, attr) == pages
  {
  }

  // Who owns which frame.

  /** The page at `a` belongs to an attached shared-memory segment. */
  predicate IsShmArea(p: Payload) {
    p.flags / MAP_SHARED % 2 == 1 && p.name.Some? && "[shm:" <= p.name.value
  }

  ghost function ShmPages(view: imap<nat, Payload>): iset<nat> {
    iset v: nat | v * 4096 in view && IsShmArea(view[v * 4096])
  }

  /**
   * A mapped frame is memory in use and not a table; a page that is not shared memory has a frame that no other
   * page maps.
   */
  ghost predicate OwnedAt(pages: PageMap, free: set<nat>, t: Tables, shm: iset<nat>, v: nat) {
    v in pages ==>
      var f := pages[v].frame;
      && f < MAX_PAGES && f !in free && f !in t.Values
      && (v !in shm ==> forall w {:trigger pages[w]} :: w in pages && w != v ==> pages[w].frame != f)
  }

  ghost predicate Owned(pages: PageMap, free: set<nat>, t: Tables, shm: iset<nat>) {
    forall v: nat {:trigger OwnedAt(pages, free, t, shm, v)} :: OwnedAt(pages, free, t, shm, v)
  }

  lemma OwnedReleasable(pages: PageMap, free: set<nat>, t: Tables, shm: iset<nat>, first: nat, shared: seq<bool>)
    requires Owned(pages, free, t, shm)
    requires forall i {:trigger shared[i]} :: 0 <= i < |shared| ==> (shared[i] <==> first + i in shm)
    ensures Releasable(pages, first, shared, free, t)
  {
    forall i: nat | i < |shared| ensures ReleasableAt(pages, first, shared, free, t, i) {
      assert OwnedAt(pages, free, t, shm, first + i);
      ReleasedMembers(pages, first, shared, i);
    }
  }

  /** The shared pages after the areas of a range went away. */
  ghost predicate SameOutside(shm: iset<nat>, shm': iset<nat>, first: nat, n: nat) {
    forall v: nat :: !(first <= v < first + n) ==> (v in shm <==> v in shm')
  }

  lemma OwnedAfterUnmap(pages: PageMap, free: set<nat>, t: Tables, shm: iset<nat>, shm': iset<nat>, first: nat,
                        shared: seq<bool>)
    requires Owned(pages, free, t, shm) && SameOutside(shm, shm', first, |shared|)
    requires forall i {:trigger shared[i]} :: 0 <= i < |shared| ==> (shared[i] <==> first + i in shm)
    ensures Owned(WithoutRange(pages, first, |shared|), free + Released(pages, first, shared, |shared|), t, shm')
  {
    ReleasedMembers(pages, first, shared, |shared|);
    var pages', free' := WithoutRange(pages, first, |shared|), free + Released(pages, first, shared, |shared|);
    forall v: nat ensures OwnedAt(pages', free', t, shm', v) {
      assert OwnedAt(pages, free, t, shm, v);
      forall i | 0 <= i < |shared| && first + i in pages && !shared[i] && v in pages'
        ensures pages[first + i].frame != pages[v].frame
      {
        assert OwnedAt(pages, free, t, shm, first + i);
      }
    }
  }

  /** A range mapped with fresh frames is owned, provided it no longer counts as shared. */
  lemma OwnedAfterMap(start: Snapshot, now: Snapshot, first: nat, frames: seq<nat>, done: nat, attr: PageAttr,
                      shm: iset<nat>, shm': iset<nat>)
    requires Owned(start.pages, start.free, start.t, shm) && MapState(start, now, first, frames, done, attr)
    requires forall i :: 0 <= i < |frames| ==> frames[i] < MAX_PAGES
    requires SameOutside(shm, shm', first, |frames|)
    ensures Owned(now.pages, now.free, now.t, shm')
  {
    forall v: nat | v in start.pages
      ensures start.pages[v].frame !in start.free && start.pages[v].frame !in start.t.Values
    {
      assert OwnedAt(start.pages, start.free, start.t, shm, v);
    }
    forall v: nat ensures OwnedAt(now.pages, now.free, now.t, shm', v) {
      assert OwnedAt(start.pages, start.free, start.t, shm, v);
      if v in now.pages {
        PageAfterMap(start, now, first, frames, done, attr, v);
        forall w | w in now.pages && w != v && v !in shm' ensures now.pages[w].frame != now.pages[v].frame {
          PageAfterMap(start, now, first, frames, done, attr, w);
          assert first <= v < first + done ==> frames[v - first] in ToSet(frames);
          assert first <= w < first + done ==> frames[w - first] in ToSet(frames);
        }
      }
    }
  }

  lemma PageAfterMap(start: Snapshot, now: Snapshot, first: nat, frames: seq<nat>, done: nat, attr: PageAttr, v: nat)
    requires MapState(start, now, first, frames, done, attr) && v in now.pages
    requires forall w {:trigger start.pages[w]} :: w in start.pages ==>
               start.pages[w].frame !in start.free && start.pages[w].frame !in start.t.Values
    ensures now.pages[v].frame !in now.free && now.pages[v].frame !in now.t.Values
    ensures first <= v < first + done ==> now.pages[v].frame == frames[v - first]
    ensures !(first <= v < first + done) ==>
              !(first <= v < first + |frames|) && v in start.pages && now.pages[v] == start.pages[v]
  {
    if first <= v < first + done {
      assert now.pages[v] == Granted(frames[..done][v - first], attr);
      assert frames[v - first] in ToSet(frames);
    } else {
      assert v in start.pages;
    }
  }

  lemma OwnedAfterRollBack(start: Snapshot, now: Snapshot, first: nat, n: nat, shm: iset<nat>)
    requires Owned(start.pages, start.free, start.t, shm) && RolledBack(start, now, first, n)
    ensures Owned(now.pages, now.free, now.t, shm)
  {
    assert RolledBackAt(start, now, first, n, 0);
    forall v: nat ensures OwnedAt(now.pages, now.free, now.t, shm, v) {
      assert OwnedAt(start.pages, start.free, start.t, shm, v);
    }
  }

  lemma OwnedAfterRemap(pages: PageMap, free: set<nat>, t: Tables, shm: iset<nat>, first: nat, n: nat, attr: PageAttr)
    requires Owned(pages, free, t, shm)
    ensures Owned(WithAttr(pages, first, n, attr), free, t, shm)
  {
    forall v: nat ensures OwnedAt(WithAttr(pages, first, n, attr), free, t, shm, v) {
      assert OwnedAt(pages, free, t, shm, v);
    }
  }
}

/** The page-mapping loop of `do_mmap` and `do_brk` (kernel/src/mm/mmap.rs), with its rollback when frames run out. */
module MapRange {
  import opened Common
  import opened LittleEndian
  import opened PageTable
  import opened Paging
  import opened Pmm

  /** `pages` with the pages from `first` on leading to `frames`. */
  ghost function WithRange(pages: PageMap, first: nat, frames: seq<nat>, attr: PageAttr): PageMap {
    imap v: nat | v in pages || first <= v < first + |frames| ::
      if first <= v < first + |frames| then Granted(frames[v - first], attr) else pages[v]
  }

  ghost function WithoutRange(pages: PageMap, first: nat, n: nat): PageMap {
    imap v | v in pages && !(first <= v < first + n) :: pages[v]
  }

  lemma WithRangeStep(pages: PageMap, first: nat, frames: seq<nat>, attr: PageAttr, frame: nat)
    ensures WithRange(pages, first, frames, attr)[first + |frames| := Granted(frame, attr)] ==
              WithRange(pages, first, frames + [frame], attr)
  {
    var before, after := WithRange(pages, first, frames, attr), WithRange(pages, first, frames + [frame], attr);
    forall v: nat | v in before && v != first + |frames| ensures v in after && after[v] == before[v] {
      assert first <= v < first + |frames| ==> (frames + [frame])[v - first] == frames[v - first];
    }
  }

  /** The tables needed by `n` pages from `first` on. */
  ghost function Paths(first: nat, n: nat): set<Key> {
    if n == 0 then {} else Paths(first, n - 1) + Path(first + n - 1)
  }

  // The mapping loop shared by `do_mmap` and `do_brk`, with its rollback.

  /** The parts of the machine the mapping loop works on. */
  datatype Snapshot = Snapshot(free: set<nat>, m: Ram, t: Tables, pages: PageMap)

  /** The tables are a tree and the flat map is theirs. */
  ghost predicate Coherent(s: Snapshot, root: nat) {
    Tree(s.m, root, s.t) && Represents(s.m, s.t, s.pages)
  }

  ghost function Now(aspace: AddressSpace): Snapshot
    requires aspace.Valid()
    reads aspace, aspace.pmm, aspace.pmm.bitmap, aspace.mem
  {
    Snapshot(aspace.pmm.Free(), aspace.mem.frames, aspace.tables, aspace.Pages())
  }

  /** A page's worth of a file from `offset` on, padded with zeros. */
  function FilePage(file: seq<byte>, offset: nat): Frame {
    if offset < |file| then
      var n := Min(4096, |file| - offset);
      file[offset..offset + n] + ZeroFrame()[n..]
    else ZeroFrame()
  }

  lemma FilePageBytes(file: seq<byte>, offset: nat, j: nat)
    requires j < 4096
    ensures FilePage(file, offset)[j] == if offset + j < |file| then file[offset + j] else 0
  {
    assert ZeroFrame()[j] == 0;
  }

  /**
   * One iteration of the mapping loop: `frame` was taken for `vpn`, filled with `content`, and mapped there unless
   * tables ran out.
   */
  ghost predicate Stepped(now: Snapshot, next: Snapshot, vpn: nat, attr: PageAttr, content: Frame, frame: nat,
                          mapped: bool) {
    && now.free != {}
    && frame < |next.m| && next.m[frame] == content
    && Grew(now.free, now.m, now.t, next.free, next.m, next.t, {frame}, Path(vpn))
    && next.pages == (if mapped then now.pages[vpn := Granted(frame, attr)] else now.pages)
    && (!mapped ==> next.free == {} && vpn !in next.pages && KeyOf(vpn, 3) !in next.t)
  }

  /** The iterations of the mapping loop: the states between them, the frames taken, and whether each mapping took. */
  datatype Trace = Trace(root: nat, states: seq<Snapshot>, frames: seq<nat>, took: seq<bool>)

  /** What a range of pages is mapped with: the bytes of `file` from `offset` on, none for anonymous memory. */
  datatype Request = Request(first: nat, attr: PageAttr, file: seq<byte>, offset: nat)

  function Anonymous(first: nat, attr: PageAttr): Request { Request(first, attr, [], 0) }

  /** The request from its `i`-th page on. */
  function After(q: Request, i: nat): Request { Request(q.first + i, q.attr, q.file, q.offset + 4096 * i) }

  /** What the `i`-th page is filled with. */
  function Content(q: Request, i: nat): Frame { FilePage(q.file, q.offset + 4096 * i) }

  ghost predicate StepAt(tr: Trace, q: Request, i: nat)
    requires i < |tr.frames| == |tr.took| && |tr.states| == |tr.frames| + 1
  {
    && Stepped(tr.states[i], tr.states[i + 1], q.first + i, q.attr, Content(q, i), tr.frames[i], tr.took[i])
    && Coherent(tr.states[i + 1], tr.root)
  }

  ghost predicate IsTrace(tr: Trace, q: Request) {
    && |tr.states| == |tr.frames| + 1 == |tr.took| + 1
    && forall i: nat {:trigger StepAt(tr, q, i)} :: i < |tr.frames| ==> StepAt(tr, q, i)
  }

  lemma GrewFill(free: set<nat>, m: Ram, t: Tables, free': set<nat>, m': Ram, t': Tables, frame: nat, keys: set<Key>,
                 content: Frame)
    requires Grew(free, m, t, free', m', t', {frame}, keys) && frame < |m'|
    ensures Grew(free, m, t, free', m'[frame := content], t', {frame}, keys)
  {
  }

  lemma FirstContent(q: Request)
    ensures Content(q, 0) == FilePage(q.file, q.offset)
  {
  }

  /** The file's bytes go into the frame, over the zeros. */
  method Load(aspace: AddressSpace, frame: nat, file: seq<byte>, offset: nat)
    requires aspace.Valid() && frame < MAX_PAGES && frame !in aspace.tables.Values
    requires aspace.mem.frames[frame] == ZeroFrame()
    modifies aspace.mem
    ensures aspace.Valid() && aspace.Pages() == old(aspace.Pages())
    ensures aspace.mem.frames == old(aspace.mem.frames)[frame := FilePage(file, offset)]
  {
    if offset < |file| {
      aspace.FillFrame(frame, FilePage(file, offset));
    }
  }

  /** One iteration: a fresh zeroed frame, mapped with the result ignored and filled, as a trace of one step. */
  method MapFresh(aspace: AddressSpace, q: Request) returns (r: Option<nat>, ghost tr: Trace)
    requires aspace.Valid() && q.first < VPN_LIMIT
    modifies aspace, aspace.pmm.bitmap, aspace.pmm`freePages, aspace.pmm`free, aspace.mem
    ensures aspace.Valid()
    ensures r.None? ==> Now(aspace) == old(Now(aspace)) && aspace.pmm.Free() == {}
    ensures r.Some? ==> tr.states == [old(Now(aspace)), Now(aspace)] && tr.frames == [r.value] && IsTrace(tr, q)
    ensures r.Some? ==> tr.root == aspace.root
  {
    tr := Trace(aspace.root, [], [], []);
    ghost var start := Now(aspace);
    r := aspace.TakeFrame(Path(q.first));
    if r.None? {
      return;
    }
    ghost var taken := Now(aspace);
    var ok := aspace.MapPage(q.first, r.value, q.attr);
    ghost var mapped := Now(aspace);
    Load(aspace, r.value, q.file, q.offset);
    tr := Trace(aspace.root, [start, Now(aspace)], [r.value], [ok]);
    FreshStepped(aspace.root, start, taken, mapped, Now(aspace), q, r.value, ok);
  }

  /** Taking a frame, mapping it and filling it make one step. */
  lemma FreshStepped(root: nat, start: Snapshot, taken: Snapshot, mapped: Snapshot, next: Snapshot, q: Request,
                     frame: nat, ok: bool)
    requires start.free != {} && frame < |mapped.m| && Coherent(next, root)
    requires Grew(start.free, start.m, start.t, taken.free, taken.m, taken.t, {frame}, Path(q.first))
    requires Grew(taken.free, taken.m, taken.t, mapped.free, mapped.m, mapped.t, {}, Path(q.first))
    requires mapped.pages == if ok then start.pages[q.first := Granted(frame, q.attr)] else start.pages
    requires !ok ==> mapped.free == {} && q.first !in mapped.pages && KeyOf(q.first, 3) !in mapped.t
    requires next == mapped.(m := mapped.m[frame := FilePage(q.file, q.offset)])
    ensures IsTrace(Trace(root, [start, next], [frame], [ok]), q)
  {
    var content := FilePage(q.file, q.offset);
    GrewThen(start.free, start.m, start.t, taken.free, taken.m, taken.t, {frame}, mapped.free, mapped.m, mapped.t,
             Path(q.first));
    GrewFill(start.free, start.m, start.t, mapped.free, mapped.m, mapped.t, frame, Path(q.first), content);
    FirstContent(q);
    assert Stepped(start, next, q.first, q.attr, content, frame, ok);
    OneStep(root, start, next, q, content, frame, ok);
  }

  lemma OneStep(root: nat, start: Snapshot, next: Snapshot, q: Request, content: Frame, frame: nat, ok: bool)
    requires Stepped(start, next, q.first, q.attr, content, frame, ok) && content == Content(q, 0)
    requires Coherent(next, root)
    ensures IsTrace(Trace(root, [start, next], [frame], [ok]), q)
  {
    assert StepAt(Trace(root, [start, next], [frame], [ok]), q, 0);
  }

  /** `frames` were taken in order for the pages from `first`, and the first `done` of them are mapped. */
  ghost predicate PartlyMapped(pages: PageMap, pages0: PageMap, first: nat, frames: seq<nat>, done: nat,
                               attr: PageAttr) {
    && done <= |frames| <= done + 1
    && pages == WithRange(pages0, first, frames[..done], attr)
    && (done < |frames| ==> first + done !in pages0)
  }

  /** The list the code keeps for its rollback. */
  ghost predicate Recorded(mapped: seq<(nat, nat)>, first: nat, frames: seq<nat>) {
    && |mapped| == |frames|
    && forall i {:trigger mapped[i]} :: 0 <= i < |mapped| ==> mapped[i] == (first + i, frames[i])
  }

  lemma RecordedStep(mapped: seq<(nat, nat)>, first: nat, frames: seq<nat>, frame: nat)
    requires Recorded(mapped, first, frames)
    ensures Recorded(mapped + [(first + |frames|, frame)], first, frames + [frame])
  {
  }

  /** Every page of the range that is mapped leads to the frame taken for it. */
  ghost predicate LeadTo(pages: PageMap, first: nat, frames: seq<nat>) {
    forall i {:trigger frames[i]} :: 0 <= i < |frames| && first + i in pages ==> pages[first + i].frame == frames[i]
  }

  lemma PartlyMappedLeads(pages: PageMap, pages0: PageMap, first: nat, frames: seq<nat>, done: nat, attr: PageAttr)
    requires PartlyMapped(pages, pages0, first, frames, done, attr)
    ensures LeadTo(pages, first, frames)
    ensures WithoutRange(pages, first, |frames|) == WithoutRange(pages0, first, |frames|)
  {
    forall i | 0 <= i < |frames| && first + i in pages ensures pages[first + i].frame == frames[i] {
      assert i < done ==> pages[first + i] == Granted(frames[..done][i], attr);
    }
  }

  lemma WithoutNone(pages: PageMap, first: nat, free: set<nat>, frames: seq<nat>)
    ensures WithoutRange(pages, first, 0) == pages
    ensures free + FirstFrames(frames, 0) == free
  {
  }

  lemma WithoutRangeStep(pages: PageMap, first: nat, i: nat)
    ensures WithoutRange(pages, first, i) - {first + i} == WithoutRange(pages, first, i + 1)
    ensures first + i in WithoutRange(pages, first, i) <==> first + i in pages
    ensures first + i in pages ==> WithoutRange(pages, first, i)[first + i] == pages[first + i]
  {
  }

  /** Every frame but the tables keeps its content. */
  ghost predicate DataKept(m: Ram, m': Ram, t: Tables) {
    |m'| == |m| && forall f :: 0 <= f < |m| && f !in t.Values ==> m'[f] == m[f]
  }

  lemma DataKeptOn(m: Ram, m': Ram, m'': Ram, t: Tables)
    requires DataKept(m, m', t) && DataKept(m', m'', t)
    ensures DataKept(m, m'', t)
  {
  }

  /** Unmaps one page and frees its frame, or the recorded frame where the mapping had not taken. */
  method RollBackOne(aspace: AddressSpace, vpn: nat, fallback: nat)
    requires aspace.Valid() && vpn < VPN_LIMIT
    requires vpn in aspace.Pages() ==> aspace.Pages()[vpn].frame == fallback
    requires fallback < MAX_PAGES && fallback !in aspace.pmm.Free() && fallback !in aspace.tables.Values
    modifies aspace.pmm.bitmap, aspace.pmm`freePages, aspace.pmm`free, aspace.mem, aspace`pages
    ensures aspace.Valid()
    ensures aspace.Pages() == old(aspace.Pages()) - {vpn}
    ensures aspace.pmm.Free() == old(aspace.pmm.Free()) + {fallback}
    ensures DataKept(old(aspace.mem.frames), aspace.mem.frames, aspace.tables)
  {
    var p := aspace.UnmapPage(vpn);
    if p.Some? {
      aspace.ReleaseFrame(p.value);
    } else {
      aspace.ReleaseFrame(fallback);
    }
  }

  /** Undoes a partial mapping: every taken frame goes back exactly once, and every touched page ends unmapped. */
  method RollBack(aspace: AddressSpace, mapped: seq<(nat, nat)>, ghost first: nat, ghost frames: seq<nat>)
    requires aspace.Valid() && Recorded(mapped, first, frames) && first + |frames| <= VPN_LIMIT
    requires Undoable(aspace.Pages(), aspace.pmm.Free(), aspace.tables, first, frames)
    modifies aspace.pmm.bitmap, aspace.pmm`freePages, aspace.pmm`free, aspace.mem, aspace`pages
    ensures aspace.Valid()
    ensures aspace.Pages() == WithoutRange(old(aspace.Pages()), first, |frames|)
    ensures aspace.pmm.Free() == old(aspace.pmm.Free()) + ToSet(frames)
    ensures DataKept(old(aspace.mem.frames), aspace.mem.frames, aspace.tables)
  {
    ghost var pages, free, m := aspace.Pages(), aspace.pmm.Free(), aspace.mem.frames;
    WithoutNone(pages, first, free, frames);
    for i := 0 to |mapped|
      invariant aspace.Valid()
      invariant aspace.Pages() == WithoutRange(pages, first, i)
      invariant aspace.pmm.Free() == free + FirstFrames(frames, i)
      invariant DataKept(m, aspace.mem.frames, aspace.tables)
    {
      ghost var p, f, now := aspace.Pages(), aspace.pmm.Free(), aspace.mem.frames;
      var (vpn, frame) := mapped[i];
      UndoReady(pages, free, aspace.tables, first, frames, i, p, f);
      RollBackOne(aspace, vpn, frame);
      UndoStep(pages, free, first, frames, i, p, f, aspace.Pages(), aspace.pmm.Free());
      DataKeptOn(m, now, aspace.mem.frames, aspace.tables);
    }
    AllFrames(frames);
  }

  /** Frame `i` is in use, not a table, taken only once, and the only thing its page may lead to. */
  ghost predicate UndoableAt(pages: PageMap, free: set<nat>, t: Tables, first: nat, frames: seq<nat>, i: nat)
    requires i < |frames|
  {
    && frames[i] < MAX_PAGES && frames[i] !in t.Values && frames[i] !in free + FirstFrames(frames, i)
    && (first + i in pages ==> pages[first + i].frame == frames[i])
  }

  ghost predicate Undoable(pages: PageMap, free: set<nat>, t: Tables, first: nat, frames: seq<nat>) {
    forall i: nat {:trigger UndoableAt(pages, free, t, first, frames, i)} :: i < |frames| ==>
      UndoableAt(pages, free, t, first, frames, i)
  }

  lemma UndoReady(pages: PageMap, free: set<nat>, t: Tables, first: nat, frames: seq<nat>, i: nat, p: PageMap,
                  f: set<nat>)
    requires Undoable(pages, free, t, first, frames)
    requires i < |frames| && p == WithoutRange(pages, first, i) && f == free + FirstFrames(frames, i)
    ensures frames[i] < MAX_PAGES && frames[i] !in t.Values && frames[i] !in f
    ensures first + i in p ==> p[first + i].frame == frames[i]
  {
    assert UndoableAt(pages, free, t, first, frames, i);
  }

  lemma UndoStep(pages: PageMap, free: set<nat>, first: nat, frames: seq<nat>, i: nat, p: PageMap, f: set<nat>,
                 p': PageMap, f': set<nat>)
    requires i < |frames| && p == WithoutRange(pages, first, i) && f == free + FirstFrames(frames, i)
    requires p' == p - {first + i} && f' == f + {frames[i]}
    ensures p' == WithoutRange(pages, first, i + 1) && f' == free + FirstFrames(frames, i + 1)
  {
    WithoutRangeStep(pages, first, i);
    FirstFramesStep(free, frames, i);
  }

  ghost function FirstFrames(frames: seq<nat>, n: nat): set<nat>
    requires n <= |frames|
  {
    if n == 0 then {} else FirstFrames(frames, n - 1) + {frames[n - 1]}
  }

  lemma {:induction false} FirstFramesMembers(frames: seq<nat>, n: nat)
    requires n <= |frames|
    ensures forall f :: f in FirstFrames(frames, n) <==> exists i :: 0 <= i < n && frames[i] == f
  {
    if n > 0 {
      FirstFramesMembers(frames, n - 1);
    }
  }

  lemma AllFrames(frames: seq<nat>)
    ensures FirstFrames(frames, |frames|) == ToSet(frames)
  {
    FirstFramesMembers(frames, |frames|);
  }

  lemma FirstFramesStep(free: set<nat>, frames: seq<nat>, i: nat)
    requires i < |frames|
    ensures free + FirstFrames(frames, i + 1) == free + FirstFrames(frames, i) + {frames[i]}
  {
  }

  /** The state of the mapping loop after `frames` were taken, relative to where it started. */
  ghost predicate MapState(start: Snapshot, now: Snapshot, first: nat, frames: seq<nat>, done: nat, attr: PageAttr) {
    && Distinct(frames)
    && Grew(start.free, start.m, start.t, now.free, now.m, now.t, ToSet(frames), Paths(first, |frames|))
    && PartlyMapped(now.pages, start.pages, first, frames, done, attr)
    && (done < |frames| ==> now.free == {})
  }

  lemma MapStateStart(start: Snapshot, first: nat, attr: PageAttr)
    requires forall k {:trigger start.t[k]} :: k in start.t ==> start.t[k] !in start.free
    ensures MapState(start, start, first, [], 0, attr)
  {
  }

  lemma MapStateStep(start: Snapshot, now: Snapshot, next: Snapshot,
                     first: nat, frames: seq<nat>, done: nat, attr: PageAttr, content: Frame, frame: nat, mapped: bool)
    requires MapState(start, now, first, frames, done, attr)
    requires Stepped(now, next, first + |frames|, attr, content, frame, mapped)
    ensures MapState(start, next, first, frames + [frame], if mapped then done + 1 else done, attr)
  {
    assert done == |frames|;
    assert frames[..done] == frames;
    TakenStep(start, now, next, first, frames, frame);
    PartlyMappedStep(now.pages, next.pages, start.pages, first, frames, attr, frame, mapped);
  }

  lemma TakenStep(start: Snapshot, now: Snapshot, next: Snapshot, first: nat, frames: seq<nat>, frame: nat)
    requires Distinct(frames)
    requires Grew(start.free, start.m, start.t, now.free, now.m, now.t, ToSet(frames), Paths(first, |frames|))
    requires Grew(now.free, now.m, now.t, next.free, next.m, next.t, {frame}, Path(first + |frames|))
    ensures Distinct(frames + [frame])
    ensures Grew(start.free, start.m, start.t, next.free, next.m, next.t, ToSet(frames + [frame]),
                 Paths(first, |frames + [frame]|))
  {
    GrewTransitive(start.free, start.m, start.t, now.free, now.m, now.t, ToSet(frames), Paths(first, |frames|),
                   next.free, next.m, next.t, {frame}, Path(first + |frames|));
    assert ToSet(frames + [frame]) == ToSet(frames) + {frame};
    assert frame in {frame} && frame !in ToSet(frames);
  }

  lemma PartlyMappedStep(pages: PageMap, pages': PageMap, pages0: PageMap, first: nat, frames: seq<nat>, attr: PageAttr,
                         frame: nat, mapped: bool)
    requires pages == WithRange(pages0, first, frames, attr)
    requires pages' == if mapped then pages[first + |frames| := Granted(frame, attr)] else pages
    requires !mapped ==> first + |frames| !in pages
    ensures PartlyMapped(pages', pages0, first, frames + [frame], if mapped then |frames| + 1 else |frames|, attr)
  {
    var frames' := frames + [frame];
    assert frames'[..|frames|] == frames && frames'[..|frames| + 1] == frames';
    WithRangeStep(pages0, first, frames, attr, frame);
  }

  /** Each frame of the range holds its page's content. */
  ghost predicate Filled(m: Ram, frames: seq<nat>, q: Request) {
    forall i: nat {:trigger frames[i]} :: i < |frames| ==> frames[i] < |m| && m[frames[i]] == Content(q, i)
  }

  lemma FilledStep(start: Snapshot, now: Snapshot, next: Snapshot, q: Request, frames: seq<nat>, done: nat,
                   frame: nat, mapped: bool)
    requires MapState(start, now, q.first, frames, done, q.attr) && Filled(now.m, frames, q)
    requires Stepped(now, next, q.first + |frames|, q.attr, Content(q, |frames|), frame, mapped)
    ensures Filled(next.m, frames + [frame], q)
  {
    forall i: nat | i < |frames| ensures frames[i] < |now.m| && next.m[frames[i]] == now.m[frames[i]] {
      assert frames[i] in ToSet(frames);
    }
  }

  /**
   * After a rollback, of frame `f` and the rest of the machine: the frames the loop used are free again, except those
   * that became tables, and a frame that was not free holds what it held.
   */
  ghost predicate RolledBackAt(start: Snapshot, now: Snapshot, first: nat, n: nat, f: nat) {
    && |now.m| == |start.m|
    && (forall k {:trigger now.t[k]} {:trigger start.t[k]} :: k in start.t ==> k in now.t && now.t[k] == start.t[k])
    && (forall k {:trigger now.t[k]} :: k in now.t && k !in start.t ==> now.t[k] in start.free && k in Paths(first, n))
    && now.free == start.free - now.t.Values
    && (f < |now.m| && f !in now.t.Values && f !in start.free ==> now.m[f] == start.m[f])
    && now.pages == WithoutRange(start.pages, first, n)
  }

  ghost predicate RolledBack(start: Snapshot, now: Snapshot, first: nat, n: nat) {
    forall f: nat {:trigger RolledBackAt(start, now, first, n, f)} :: RolledBackAt(start, now, first, n, f)
  }

  lemma RollsBack(start: Snapshot, now: Snapshot, next: Snapshot, first: nat, frames: seq<nat>, done: nat,
                  attr: PageAttr)
    requires MapState(start, now, first, frames, done, attr)
    requires next.t == now.t && |next.m| == |now.m| && next.free == now.free + ToSet(frames)
    requires next.pages == WithoutRange(now.pages, first, |frames|)
    requires forall f :: 0 <= f < |now.m| && f !in now.t.Values ==> next.m[f] == now.m[f]
    ensures RolledBack(start, next, first, |frames|)
  {
    PartlyMappedLeads(now.pages, start.pages, first, frames, done, attr);
    forall f ensures f in next.free <==> f in start.free && f !in next.t.Values {
      if f in next.t.Values {
        var k :| k in next.t && next.t[k] == f;
        assert f !in ToSet(frames) && f !in now.free;
      }
    }
    var n := |frames|;
    forall f: nat ensures RolledBackAt(start, next, first, n, f) {
    }
  }

  /**
   * Over a range that was unmapped, a failed call leaves every translation as it was and keeps nothing but new
   * tables.
   */
  lemma RollBackRestores(start: Snapshot, now: Snapshot, first: nat, n: nat)
    requires RolledBack(start, now, first, n) && forall v :: first <= v < first + n ==> v !in start.pages
    requires forall k {:trigger start.t[k]} :: k in start.t ==> start.t[k] !in start.free
    ensures now.pages == start.pages
    ensures forall f :: f in start.free && f !in now.free ==> exists k :: k in now.t && k !in start.t && now.t[k] == f
  {
    assert RolledBackAt(start, now, first, n, 0);
    forall f | f in start.free && f !in now.free ensures exists k :: k in now.t && k !in start.t && now.t[k] == f {
      assert f in now.t.Values;
      var k :| k in now.t && now.t[k] == f;
    }
  }

  ghost predicate TraceFromTo(tr: Trace, q: Request, start: Snapshot, now: Snapshot) {
    IsTrace(tr, q) && tr.states[0] == start && tr.states[|tr.frames|] == now
  }

  /** `tr` followed by `one`, which starts where `tr` ends. */
  function Append(tr: Trace, one: Trace): Trace
    requires |one.states| > 0
  {
    Trace(tr.root, tr.states + one.states[1..], tr.frames + one.frames, tr.took + one.took)
  }

  lemma AppendTrace(tr: Trace, one: Trace, q: Request, start: Snapshot, now: Snapshot, next: Snapshot)
    requires TraceFromTo(tr, q, start, now) && one.root == tr.root
    requires TraceFromTo(one, After(q, |tr.frames|), now, next)
    ensures TraceFromTo(Append(tr, one), q, start, next)
  {
    var all, n := Append(tr, one), |tr.frames|;
    forall i: nat | i < |all.frames| ensures StepAt(all, q, i) {
      if i < n {
        SameStep(tr, q, i, all, q, i);
      } else {
        SameStep(one, After(q, n), i - n, all, q, i);
      }
    }
  }

  lemma SameStep(tr: Trace, q: Request, i: nat, tr': Trace, q': Request, i': nat)
    requires IsTrace(tr, q) && i < |tr.frames| && i' < |tr'.frames| == |tr'.took| && |tr'.states| == |tr'.frames| + 1
    requires tr'.states[i'] == tr.states[i] && tr'.states[i' + 1] == tr.states[i + 1] && tr'.root == tr.root
    requires tr'.frames[i'] == tr.frames[i] && tr'.took[i'] == tr.took[i]
    requires q'.first + i' == q.first + i && q'.attr == q.attr && Content(q', i') == Content(q, i)
    ensures StepAt(tr', q', i')
  {
    assert StepAt(tr, q, i);
  }

  /** How many of the first `n` iterations mapped their page; only the last can have failed. */
  ghost function Done(tr: Trace, n: nat): nat
    requires n <= |tr.took|
  {
    if n == 0 then 0 else if tr.took[n - 1] then Done(tr, n - 1) + 1 else Done(tr, n - 1)
  }

  lemma LoopStep(start: Snapshot, now: Snapshot, next: Snapshot,
                 q: Request, n: nat, frames: seq<nat>, done: nat, frame: nat, mapped: bool,
                 frames': seq<nat>, done': nat)
    requires MapState(start, now, q.first, frames, done, q.attr) && Filled(now.m, frames, q) && |frames| == n
    requires Stepped(now, next, q.first + n, q.attr, Content(q, n), frame, mapped)
    requires frames' == frames + [frame] && done' == if mapped then done + 1 else done
    ensures MapState(start, next, q.first, frames', done', q.attr) && Filled(next.m, frames', q)
  {
    MapStateStep(start, now, next, q.first, frames, done, q.attr, Content(q, |frames|), frame, mapped);
    FilledStep(start, now, next, q, frames, done, frame, mapped);
  }

  /** What a trace amounts to after `n` steps. */
  ghost predicate Reached(tr: Trace, q: Request, n: nat)
    requires n <= |tr.frames| == |tr.took| && |tr.states| == |tr.frames| + 1
  {
    && MapState(tr.states[0], tr.states[n], q.first, tr.frames[..n], Done(tr, n), q.attr)
    && Filled(tr.states[n].m, tr.frames[..n], q)
  }

  lemma ReachedNext(tr: Trace, q: Request, n: nat)
    requires IsTrace(tr, q) && n < |tr.frames| && Reached(tr, q, n)
    ensures Reached(tr, q, n + 1)
  {
    var start, now, next := tr.states[0], tr.states[n], tr.states[n + 1];
    var frames, frames' := tr.frames[..n], tr.frames[..n + 1];
    StepOf(tr, q, n, now, next);
    LoopStep(start, now, next, q, n, frames, Done(tr, n), tr.frames[n], tr.took[n], frames', Done(tr, n + 1));
  }

  lemma StepOf(tr: Trace, q: Request, n: nat, now: Snapshot, next: Snapshot)
    requires IsTrace(tr, q) && n < |tr.frames| && now == tr.states[n] && next == tr.states[n + 1]
    ensures Stepped(now, next, q.first + n, q.attr, Content(q, n), tr.frames[n], tr.took[n])
  {
    assert StepAt(tr, q, n);
  }

  lemma {:induction false} TraceState(tr: Trace, q: Request, n: nat)
    requires IsTrace(tr, q) && n <= |tr.frames|
    requires forall k {:trigger tr.states[0].t[k]} :: k in tr.states[0].t ==> tr.states[0].t[k] !in tr.states[0].free
    ensures Reached(tr, q, n)
  {
    if n == 0 {
      ReachedStart(tr, q);
    } else {
      TraceState(tr, q, n - 1);
      ReachedNext(tr, q, n - 1);
    }
  }

  lemma ReachedStart(tr: Trace, q: Request)
    requires IsTrace(tr, q)
    requires forall k {:trigger tr.states[0].t[k]} :: k in tr.states[0].t ==> tr.states[0].t[k] !in tr.states[0].free
    ensures Reached(tr, q, 0)
  {
    MapStateStart(tr.states[0], q.first, q.attr);
    assert tr.frames[..0] == [];
  }

  /** The whole trace. */
  lemma TraceResult(tr: Trace, q: Request, start: Snapshot, now: Snapshot)
    requires TraceFromTo(tr, q, start, now)
    requires forall k {:trigger start.t[k]} :: k in start.t ==> start.t[k] !in start.free
    ensures MapState(start, now, q.first, tr.frames, Done(tr, |tr.frames|), q.attr)
    ensures Filled(now.m, tr.frames, q)
  {
    TraceState(tr, q, |tr.frames|);
    assert tr.frames[..|tr.frames|] == tr.frames;
  }

  lemma TraceReady(tr: Trace, q: Request, start: Snapshot, now: Snapshot)
    requires TraceFromTo(tr, q, start, now)
    requires forall k {:trigger start.t[k]} :: k in start.t ==> start.t[k] !in start.free
    requires |now.m| == MAX_PAGES
    ensures Undoable(now.pages, now.free, now.t, q.first, tr.frames)
  {
    TraceResult(tr, q, start, now);
    PartlyMappedLeads(now.pages, start.pages, q.first, tr.frames, Done(tr, |tr.frames|), q.attr);
    forall i: nat | i < |tr.frames| ensures UndoableAt(now.pages, now.free, now.t, q.first, tr.frames, i) {
      assert tr.frames[i] in ToSet(tr.frames);
      FirstFramesMembers(tr.frames, i);
    }
  }

  lemma TraceRollsBack(tr: Trace, q: Request, start: Snapshot, now: Snapshot, next: Snapshot)
    requires TraceFromTo(tr, q, start, now)
    requires forall k {:trigger start.t[k]} :: k in start.t ==> start.t[k] !in start.free
    requires next.t == now.t && DataKept(now.m, next.m, now.t) && next.free == now.free + ToSet(tr.frames)
    requires next.pages == WithoutRange(now.pages, q.first, |tr.frames|)
    ensures RolledBack(start, next, q.first, |tr.frames|)
  {
    TraceResult(tr, q, start, now);
    RollsBack(start, now, next, q.first, tr.frames, Done(tr, |tr.frames|), q.attr);
  }

  /** The failure branch of the loop. */
  method Abort(aspace: AddressSpace, mapped: seq<(nat, nat)>, ghost start: Snapshot, ghost tr: Trace, ghost q: Request)
    requires aspace.Valid() && Recorded(mapped, q.first, tr.frames) && q.first + |tr.frames| <= VPN_LIMIT
    requires TraceFromTo(tr, q, start, Now(aspace))
    requires forall k {:trigger start.t[k]} :: k in start.t ==> start.t[k] !in start.free
    modifies aspace.pmm.bitmap, aspace.pmm`freePages, aspace.pmm`free, aspace.mem, aspace`pages
    ensures aspace.Valid() && RolledBack(start, Now(aspace), q.first, |tr.frames|)
  {
    ghost var now := Now(aspace);
    TraceReady(tr, q, start, now);
    RollBack(aspace, mapped, q.first, tr.frames);
    TraceRollsBack(tr, q, start, now, Now(aspace));
  }

  /**
   * Maps `n` fresh pages from `q.first` on, or undoes everything and fails.
   * On success all pages are mapped, except possibly the last one when the allocator ran dry.
   */
  method MapPages(aspace: AddressSpace, q: Request, n: nat) returns (ok: bool, ghost tr: Trace, ghost last: Snapshot)
    requires aspace.Valid() && q.first + n <= VPN_LIMIT
    modifies aspace, aspace.pmm.bitmap, aspace.pmm`freePages, aspace.pmm`free, aspace.mem
    ensures aspace.Valid()
    ensures TraceFromTo(tr, q, old(Now(aspace)), last) && tr.root == aspace.root
    ensures ok ==> |tr.frames| == n && last == Now(aspace)
    ensures !ok ==>
              |tr.frames| < n && last.free == {} && RolledBack(old(Now(aspace)), Now(aspace), q.first, |tr.frames|)
    ensures Decided(old(Now(aspace)), q, n, ok, last.pages)
  {
    var mapped: seq<(nat, nat)> := [];
    ok := true;
    ghost var start := Now(aspace);
    tr := Trace(aspace.root, [start], [], []);
    for i := 0 to n
      invariant aspace.Valid() && |tr.frames| == i && tr.root == aspace.root && Recorded(mapped, q.first, tr.frames)
      invariant TraceFromTo(tr, q, start, Now(aspace))
    {
      ghost var now := Now(aspace);
      var frame;
      ghost var one;
      frame, one := MapFresh(aspace, After(q, i));
      if frame.None? {
        ok, last := false, Now(aspace);
        RangeDecided(tr, q, start, last, n);
        Abort(aspace, mapped, start, tr, q);
        return;
      }
      RecordedStep(mapped, q.first, tr.frames, frame.value);
      AppendTrace(tr, one, q, start, now, Now(aspace));
      tr := Append(tr, one);
      mapped := mapped + [(q.first + i, frame.value)];
    }
    last := Now(aspace);
    RangeDecided(tr, q, start, last, n);
  }

  // How many frames a range needs.

  lemma {:induction false} PathsGrow(first: nat, m: nat, n: nat)
    requires m <= n
    ensures Paths(first, m) <= Paths(first, n)
  {
    if m < n { PathsGrow(first, m, n - 1); }
  }

  lemma {:induction false} PathsPresent(s: Snapshot, root: nat, first: nat, n: nat)
    requires Coherent(s, root) && forall v :: first <= v < first + n ==> v in s.pages
    ensures Paths(first, n) <= s.t.Keys
  {
    if n > 0 {
      PathsPresent(s, root, first, n - 1);
      assert Flat(s.m, s.t, first + n - 1).Some?;
      PathPresent(s.m, root, s.t, first + n - 1);
    }
  }

  lemma {:induction false} DoneBound(tr: Trace, n: nat)
    requires n <= |tr.took|
    ensures Done(tr, n) <= n
    ensures Done(tr, n) == n ==> forall i :: 0 <= i < n ==> tr.took[i]
  {
    if n > 0 { DoneBound(tr, n - 1); }
  }

  /** Frames are conserved: after `n` pages, what left the free set is data or a new table on a path of the range. */
  lemma TraceAccounts(tr: Trace, q: Request, n: nat)
    requires IsTrace(tr, q) && n <= |tr.frames|
    requires var s := tr.states[0]; forall k {:trigger s.t[k]} :: k in s.t ==> s.t[k] !in s.free
    ensures var s, s' := tr.states[0], tr.states[n];
            && |s'.free| + n + |s'.t.Keys - s.t.Keys| == |s.free|
            && s.t.Keys <= s'.t.Keys && s'.t.Keys - s.t.Keys <= Paths(q.first, n)
  {
    if n > 0 {
      assert StepAt(tr, q, n - 1);
      var s, s', frames := tr.states[0], tr.states[n], tr.frames[..n];
      TraceState(tr, q, n);
      DistinctIffCardinality(frames);
      GrewCount(s.free, s.m, s.t, s'.free, s'.m, s'.t, ToSet(frames), Paths(q.first, n));
      KeysGrow(s.free, s.m, s.t, s'.free, s'.m, s'.t, ToSet(frames), Paths(q.first, n));
    } else {
      assert tr.states[0].t.Keys - tr.states[0].t.Keys == {};
    }
  }

  /** The new tables against the lacking ones, for a range that was mapped completely. */
  lemma LackingFilled(before: set<Key>, after: set<Key>, paths: set<Key>)
    requires before <= after && after - before <= paths && paths <= after
    ensures |after - before| == |paths - before|
  {
    assert after - before == paths - before;
  }

  lemma LackingNotExceeded(before: set<Key>, after: set<Key>, part: set<Key>, paths: set<Key>)
    requires after - before <= part && part <= paths
    ensures |after - before| <= |paths - before|
  {
    SubsetCardinality(after - before, paths - before);
  }

  lemma LackingRemains(before: set<Key>, after: set<Key>, paths: set<Key>, leaf: Key)
    requires before <= after && after - before <= paths && leaf in paths && leaf !in after
    ensures |after - before| < |paths - before|
  {
    assert after - before <= paths - before - {leaf};
    SubsetCardinality(after - before, paths - before - {leaf});
  }

  lemma RangeComplete(tr: Trace, q: Request, n: nat)
    requires IsTrace(tr, q) && n <= |tr.frames| && Done(tr, n) == n
    requires var s := tr.states[0]; forall k {:trigger s.t[k]} :: k in s.t ==> s.t[k] !in s.free
    ensures Paths(q.first, n) <= tr.states[n].t.Keys
  {
    if n > 0 {
      assert StepAt(tr, q, n - 1);
      TraceState(tr, q, n);
      assert tr.frames[..n][..n] == tr.frames[..n];
      PathsPresent(tr.states[n], tr.root, q.first, n);
    }
  }

  lemma LastLeafMissing(tr: Trace, q: Request, n: nat)
    requires IsTrace(tr, q) && |tr.frames| == n && Done(tr, n) < n
    ensures n > 0 && KeyOf(q.first + n - 1, 3) in Paths(q.first, n)
    ensures KeyOf(q.first + n - 1, 3) !in tr.states[n].t && tr.states[n].free == {}
  {
    assert StepAt(tr, q, n - 1);
    LeafInPaths(q.first, n);
    if tr.took[n - 1] {
      AllButLast(tr, q, n - 1);
    }
  }

  lemma LeafInPaths(first: nat, n: nat)
    requires n > 0
    ensures KeyOf(first + n - 1, 3) in Paths(first, n)
  {
    assert KeyOf(first + n - 1, 3) in Path(first + n - 1);
  }

  /** The frames a range needs: its pages and the tables they lack. */
  ghost function Need(q: Request, n: nat, tables: set<Key>): nat {
    n + |Paths(q.first, n) - tables|
  }

  /** All `n` pages get mapped exactly when there are frames for them and for the tables they lack. */
  lemma RangeSucceeds(tr: Trace, q: Request, n: nat)
    requires IsTrace(tr, q) && |tr.frames| <= n
    requires var s := tr.states[0]; forall k {:trigger s.t[k]} :: k in s.t ==> s.t[k] !in s.free
    requires |tr.frames| < n ==> tr.states[|tr.frames|].free == {}
    ensures |tr.frames| == n == Done(tr, n) <==> Need(q, n, tr.states[0].t.Keys) <= |tr.states[0].free|
  {
    TraceAccounts(tr, q, |tr.frames|);
    var before, after, paths := tr.states[0].t.Keys, tr.states[|tr.frames|].t.Keys, Paths(q.first, n);
    if |tr.frames| < n {
      PathsGrow(q.first, |tr.frames|, n);
      LackingNotExceeded(before, after, Paths(q.first, |tr.frames|), paths);
    } else if Done(tr, n) == n {
      RangeComplete(tr, q, n);
      LackingFilled(before, after, paths);
    } else {
      DoneBound(tr, n);
      LastLeafMissing(tr, q, n);
      LackingRemains(before, after, paths, KeyOf(q.first + n - 1, 3));
    }
  }

  /** A page whose mapping did not take is the last one. */
  lemma {:induction false} AllButLast(tr: Trace, q: Request, n: nat)
    requires IsTrace(tr, q) && n < |tr.frames|
    ensures Done(tr, n) == n
  {
    if n > 0 {
      AllButLast(tr, q, n - 1);
      NotLastTook(tr, q, n - 1, n);
    }
  }

  lemma NotLastTook(tr: Trace, q: Request, i: nat, j: nat)
    requires IsTrace(tr, q) && j == i + 1 && j < |tr.frames|
    ensures tr.took[i]
  {
    assert StepAt(tr, q, i);
    assert StepAt(tr, q, j);
  }

  /** The last frame of a range of `m + 1` pages is taken exactly when one is left over from what `m` pages need. */
  lemma LastFrameTaken(tr: Trace, q: Request, m: nat)
    requires IsTrace(tr, q) && |tr.frames| <= m + 1
    requires var s := tr.states[0]; forall k {:trigger s.t[k]} :: k in s.t ==> s.t[k] !in s.free
    requires |tr.frames| <= m ==> tr.states[|tr.frames|].free == {}
    ensures |tr.frames| == m + 1 <==> Need(q, m, tr.states[0].t.Keys) < |tr.states[0].free|
  {
    var before, j := tr.states[0].t.Keys, Min(|tr.frames|, m);
    TraceAccounts(tr, q, j);
    PathsGrow(q.first, j, m);
    if |tr.frames| == m + 1 {
      AllButLast(tr, q, m);
      RangeComplete(tr, q, m);
      LackingFilled(before, tr.states[m].t.Keys, Paths(q.first, m));
      assert StepAt(tr, q, m);
      NonEmptyCard(tr.states[m].free);
    } else {
      LackingNotExceeded(before, tr.states[j].t.Keys, Paths(q.first, j), Paths(q.first, m));
    }
  }

  lemma NonEmptyCard(s: set<nat>)
    requires s != {}
    ensures |s| > 0
  {
  }

  /**
   * The outcome for a range of `n == m + 1` pages: success is reported exactly when the frames reach the last page, and
   * then that page is mapped exactly when they reach its tables too.
   */
  ghost predicate DecidedAt(start: Snapshot, q: Request, m: nat, n: nat, ok: bool, pages: PageMap) {
    && (ok <==> Need(q, m, start.t.Keys) < |start.free|)
    && (ok ==> (q.first + m in pages <==> Need(q, n, start.t.Keys) <= |start.free|))
  }

  /** The three outcomes for a range of `n > 0` pages: an error, success without the last page, success. */
  ghost predicate Decided(start: Snapshot, q: Request, n: nat, ok: bool, pages: PageMap) {
    forall m: nat {:trigger DecidedAt(start, q, m, n, ok, pages)} :: m + 1 == n ==> DecidedAt(start, q, m, n, ok, pages)
  }

  lemma RangeDecided(tr: Trace, q: Request, start: Snapshot, last: Snapshot, n: nat)
    requires TraceFromTo(tr, q, start, last) && |tr.frames| <= n && (|tr.frames| < n ==> last.free == {})
    requires forall k {:trigger start.t[k]} :: k in start.t ==> start.t[k] !in start.free
    ensures Decided(start, q, n, |tr.frames| == n, last.pages)
  {
    var ok := |tr.frames| == n;
    forall m: nat | m + 1 == n ensures DecidedAt(start, q, m, n, ok, last.pages) {
      LastFrameTaken(tr, q, m);
      LastPageMapped(tr, q, start, last, m, n);
    }
  }

  lemma LastPageMapped(tr: Trace, q: Request, start: Snapshot, last: Snapshot, m: nat, n: nat)
    requires TraceFromTo(tr, q, start, last) && |tr.frames| <= n && (|tr.frames| < n ==> last.free == {}) && m + 1 == n
    requires forall k {:trigger start.t[k]} :: k in start.t ==> start.t[k] !in start.free
    ensures |tr.frames| == n ==> (q.first + m in last.pages <==> Need(q, n, start.t.Keys) <= |start.free|)
  {
    RangeSucceeds(tr, q, n);
    if |tr.frames| == n {
      LastPage(tr, q, start, last, n);
    }
  }

  lemma LastPage(tr: Trace, q: Request, start: Snapshot, last: Snapshot, n: nat)
    requires TraceFromTo(tr, q, start, last) && |tr.frames| == n > 0
    requires forall k {:trigger start.t[k]} :: k in start.t ==> start.t[k] !in start.free
    ensures q.first + n - 1 in last.pages <==> Done(tr, n) == n
  {
    DoneBound(tr, n);
    TraceResult(tr, q, start, last);
  }

  /** A frame that nothing leads to: not free, not a table, not mapped. */
  ghost predicate Lost(s: Snapshot, f: nat) {
    f !in s.free && f !in s.t.Values && forall v {:trigger s.pages[v]} :: v in s.pages ==> s.pages[v].frame != f
  }

  /** Pages lead to frames in use. */
  ghost predicate PagesInUse(s: Snapshot) {
    forall v {:trigger s.pages[v]} :: v in s.pages ==> s.pages[v].frame !in s.free
  }

  lemma FrameOfHole(tr: Trace, q: Request, start: Snapshot, last: Snapshot, m: nat)
    requires TraceFromTo(tr, q, start, last) && |tr.frames| == m + 1 && PagesInUse(start)
    requires forall k {:trigger start.t[k]} :: k in start.t ==> start.t[k] !in start.free
    ensures Lost(last, tr.frames[m]) <==> q.first + m !in last.pages
  {
    var f, done := tr.frames[m], Done(tr, m + 1);
    TraceResult(tr, q, start, last);
    LastPage(tr, q, start, last, m + 1);
    assert f in ToSet(tr.frames);
    if done == m + 1 {
      assert last.pages[q.first + m] == Granted(tr.frames[..done][m], q.attr);
    } else {
      forall v | v in last.pages ensures last.pages[v].frame != f {
        if q.first <= v < q.first + done {
          assert last.pages[v] == Granted(tr.frames[..done][v - q.first], q.attr);
        }
      }
    }
  }

  /**
   * A call for `m + 1` pages that reports success loses the frame it took for the last page exactly when the free
   * frames reach that page but not its tables.
   */
  lemma FrameLost(tr: Trace, q: Request, start: Snapshot, last: Snapshot, m: nat, n: nat)
    requires TraceFromTo(tr, q, start, last) && |tr.frames| == n == m + 1 && PagesInUse(start)
    requires forall k {:trigger start.t[k]} :: k in start.t ==> start.t[k] !in start.free
    ensures Lost(last, tr.frames[m]) <==> |start.free| < Need(q, n, start.t.Keys)
    ensures Need(q, m, start.t.Keys) < |start.free|
  {
    FrameOfHole(tr, q, start, last, m);
    LastPageMapped(tr, q, start, last, m, n);
    LastFrameTaken(tr, q, m);
  }

  /** With a single free frame and a table missing, the call reports success and its page stays unmapped. */
  lemma LastFrameLeavesHole(tr: Trace, q: Request, start: Snapshot, last: Snapshot)
    requires TraceFromTo(tr, q, start, last) && |tr.frames| == 1
    requires forall k {:trigger start.t[k]} :: k in start.t ==> start.t[k] !in start.free
    requires |start.free| == 1 && KeyOf(q.first, 3) !in start.t
    ensures q.first !in last.pages && last.free == {}
  {
    MissingLeafCounts(q, start.t.Keys);
    RangeSucceeds(tr, q, 1);
    DoneBound(tr, 1);
    LastLeafMissing(tr, q, 1);
    LastPage(tr, q, start, last, 1);
  }

  lemma MissingLeafCounts(q: Request, tables: set<Key>)
    requires KeyOf(q.first, 3) !in tables
    ensures Need(q, 1, tables) > 1
  {
    assert KeyOf(q.first, 3) in Paths(q.first, 1) - tables;
  }
}

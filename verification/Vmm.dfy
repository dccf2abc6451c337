/** The per-process map of virtual memory areas (kernel/src/mm/vmm.rs). */
module Vmm {
  import opened Common

  const PROT_NONE := 0
  const PROT_READ := 1
  const PROT_WRITE := 2
  const PROT_EXEC := 4
  const MAP_SHARED := 0x01
  const MAP_PRIVATE := 0x02
  const MAP_FIXED := 0x10
  const MAP_ANONYMOUS := 0x20

  /** What is recorded about every address of an area. `offset` is kept as stored. */
  datatype Payload = Payload(prot: nat, flags: nat, offset: nat, name: Option<string>)

  datatype Vma = Vma(start: nat, end: nat, payload: Payload)

  type Vmas = map<nat, Vma>

  /** Areas are keyed by their start and do not overlap. */
  ghost predicate Ordered(vmas: Vmas) {
    && (forall k {:trigger vmas[k]} :: k in vmas ==> vmas[k].start == k <= vmas[k].end)
    && (forall k, l {:trigger vmas[k], vmas[l]} :: k in vmas && l in vmas && k < l ==> vmas[k].end <= l)
  }

  ghost predicate NonEmpty(vmas: Vmas) {
    forall k {:trigger vmas[k]} :: k in vmas ==> k < vmas[k].end
  }

  ghost predicate Covers(vmas: Vmas, k: nat, a: nat) {
    k in vmas && k <= a < vmas[k].end
  }

  ghost predicate Mapped(vmas: Vmas, a: nat) {
    exists k :: Covers(vmas, k, a)
  }

  ghost function PayloadAt(vmas: Vmas, a: nat): Payload
    requires Mapped(vmas, a)
  {
    var k :| Covers(vmas, k, a); vmas[k].payload
  }

  /** The reference meaning: a function from addresses to payloads. */
  ghost function View(vmas: Vmas): imap<nat, Payload> {
    imap a: nat | Mapped(vmas, a) :: PayloadAt(vmas, a)
  }

  lemma ViewAt(vmas: Vmas, k: nat, a: nat)
    requires Ordered(vmas) && Covers(vmas, k, a)
    ensures a in View(vmas) && View(vmas)[a] == vmas[k].payload
  {
  }

  ghost function Outside(view: imap<nat, Payload>, start: nat, end: nat): imap<nat, Payload> {
    imap a | a in view && !(start <= a < end) :: view[a]
  }

  ghost function Overwrite(view: imap<nat, Payload>, start: nat, end: nat, p: Payload): imap<nat, Payload> {
    imap a: nat | a in view || start <= a < end :: if start <= a < end then p else view[a]
  }

  ghost function Reprotect(view: imap<nat, Payload>, start: nat, end: nat, prot: nat): imap<nat, Payload> {
    imap a | a in view :: if start <= a < end then view[a].(prot := prot) else view[a]
  }

  /** The keys of the areas that reach into the range. */
  function Overlapping(vmas: Vmas, start: nat, end: nat): set<nat> {
    set k | k in vmas && k < end && vmas[k].end > start
  }

  // One iteration of `remove_range`.

  function Cut(vmas: Vmas, key: nat, start: nat, end: nat): Vmas
    requires key in vmas
  {
    var vma := vmas[key];
    var rest := vmas - {key};
    var left := if vma.start < start then rest[vma.start := vma.(end := start)] else rest;
    if vma.end > end then left[end := vma.(start := end)] else left
  }

  lemma CutMembers(vmas: Vmas, key: nat, start: nat, end: nat, l: nat)
    requires Ordered(vmas) && start <= end && key in Overlapping(vmas, start, end)
    ensures l in Cut(vmas, key, start, end) <==>
            (l in vmas && l != key) || (l == key && key < start) || (l == end && vmas[key].end > end)
    ensures l in Cut(vmas, key, start, end) ==>
            Cut(vmas, key, start, end)[l] ==
            if l == end && vmas[key].end > end then vmas[key].(start := end)
            else if l == key then vmas[key].(end := start) else vmas[l]
  {
  }

  lemma CutDisjoint(vmas: Vmas, key: nat, start: nat, end: nat, k: nat, l: nat)
    requires Ordered(vmas) && start <= end && key in Overlapping(vmas, start, end)
    requires k in Cut(vmas, key, start, end) && l in Cut(vmas, key, start, end) && k < l
    ensures Cut(vmas, key, start, end)[k].end <= l
  {
    CutMembers(vmas, key, start, end, k);
    CutMembers(vmas, key, start, end, l);
  }

  lemma CutOrdered(vmas: Vmas, key: nat, start: nat, end: nat)
    requires Ordered(vmas) && start <= end && key in Overlapping(vmas, start, end)
    ensures Ordered(Cut(vmas, key, start, end))
    ensures NonEmpty(vmas) ==> NonEmpty(Cut(vmas, key, start, end))
    ensures Overlapping(Cut(vmas, key, start, end), start, end) == Overlapping(vmas, start, end) - {key}
  {
    var cut := Cut(vmas, key, start, end);
    forall l | l in cut
      ensures cut[l].start == l <= cut[l].end
      ensures NonEmpty(vmas) ==> l < cut[l].end
    {
      CutMembers(vmas, key, start, end, l);
    }
    forall k, l | k in cut && l in cut && k < l ensures cut[k].end <= l {
      CutDisjoint(vmas, key, start, end, k, l);
    }
    forall l: nat ensures l in Overlapping(cut, start, end) <==> l in Overlapping(vmas, start, end) - {key} {
      CutMembers(vmas, key, start, end, l);
    }
  }

  /** The payload with its protection forgotten, when `prot` says what to put in its place. */
  ghost function Blur(p: Payload, prot: Option<nat>): Payload {
    if prot.Some? then p.(prot := prot.value) else p
  }

  /** Every area of `v` over `a` has one of `w` over `a` with the same payload, up to `Blur`. */
  ghost predicate Carries(v: Vmas, w: Vmas, a: nat, prot: Option<nat>) {
    forall k :: Covers(v, k, a) ==>
      exists l: nat :: Covers(w, l, a) && Blur(w[l].payload, prot) == Blur(v[k].payload, prot)
  }

  lemma CarriesPayload(v: Vmas, w: Vmas, a: nat, prot: Option<nat>)
    requires Ordered(v) && Ordered(w) && Carries(v, w, a, prot) && Mapped(v, a)
    ensures Mapped(w, a) && Blur(PayloadAt(w, a), prot) == Blur(PayloadAt(v, a), prot)
  {
    var k :| Covers(v, k, a);
    ViewAt(v, k, a);
    var l :| Covers(w, l, a) && Blur(w[l].payload, prot) == Blur(v[k].payload, prot);
    ViewAt(w, l, a);
  }

  lemma CutCarries(vmas: Vmas, key: nat, start: nat, end: nat, a: nat)
    requires Ordered(vmas) && start <= end && key in Overlapping(vmas, start, end)
    requires !(start <= a < end)
    ensures Carries(vmas, Cut(vmas, key, start, end), a, None) && Carries(Cut(vmas, key, start, end), vmas, a, None)
  {
    var cut := Cut(vmas, key, start, end);
    forall k: nat | Covers(vmas, k, a)
      ensures exists l: nat :: Covers(cut, l, a) && Blur(cut[l].payload, None) == Blur(vmas[k].payload, None)
    {
      var l := if k == key && a >= end then end else k;
      CutMembers(vmas, key, start, end, l);
      assert Covers(cut, l, a);
    }
    forall l: nat | Covers(cut, l, a)
      ensures exists k: nat :: Covers(vmas, k, a) && Blur(vmas[k].payload, None) == Blur(cut[l].payload, None)
    {
      var k := if l == end && vmas[key].end > end then key else l;
      CutMembers(vmas, key, start, end, l);
      assert Covers(vmas, k, a);
    }
  }

  lemma CutOutside(vmas: Vmas, key: nat, start: nat, end: nat)
    requires Ordered(vmas) && start <= end && key in Overlapping(vmas, start, end)
    ensures Outside(View(Cut(vmas, key, start, end)), start, end) == Outside(View(vmas), start, end)
  {
    var cut := Cut(vmas, key, start, end);
    forall a: nat | !(start <= a < end)
      ensures Mapped(cut, a) <==> Mapped(vmas, a)
      ensures Mapped(vmas, a) ==> PayloadAt(cut, a) == PayloadAt(vmas, a)
    {
      CutOrdered(vmas, key, start, end);
      CutCarries(vmas, key, start, end, a);
      if Mapped(vmas, a) { CarriesPayload(vmas, cut, a, None); }
      if Mapped(cut, a) { CarriesPayload(cut, vmas, a, None); }
    }
  }

  lemma NothingInside(vmas: Vmas, start: nat, end: nat)
    requires Ordered(vmas) && Overlapping(vmas, start, end) == {}
    ensures Outside(View(vmas), start, end) == View(vmas)
  {
    forall a | a in View(vmas) ensures !(start <= a < end) {
      var k :| Covers(vmas, k, a);
      assert start <= a < end ==> k in Overlapping(vmas, start, end);
    }
  }

  // One iteration of `mprotect`.

  function Protect(vmas: Vmas, key: nat, start: nat, end: nat, prot: nat): Vmas
    requires key in vmas
  {
    var vma := vmas[key];
    var rest := vmas - {key};
    var left := if vma.start < start then rest[vma.start := vma.(end := start)] else rest;
    var vma1 := if vma.start < start then vma.(start := start) else vma;
    var right := if vma1.end > end then left[end := vma1.(start := end)] else left;
    var vma2 := if vma1.end > end then vma1.(end := end) else vma1;
    right[vma2.start := vma2.(payload := vma2.payload.(prot := prot))]
  }

  lemma ProtectMembers(vmas: Vmas, key: nat, start: nat, end: nat, prot: nat, l: nat)
    requires Ordered(vmas) && start <= end && key in Overlapping(vmas, start, end)
    ensures l in Protect(vmas, key, start, end, prot) <==>
            || (l in vmas && l != key) || (l == key && key < start)
            || (l == end && vmas[key].end > end) || l == Max(key, start)
    ensures l in Protect(vmas, key, start, end, prot) ==>
            Protect(vmas, key, start, end, prot)[l] ==
            if l == Max(key, start) then Vma(l, Min(end, vmas[key].end), vmas[key].payload.(prot := prot))
            else if l == end && vmas[key].end > end then vmas[key].(start := end)
            else if l == key then vmas[key].(end := start) else vmas[l]
  {
  }

  lemma ProtectDisjoint(vmas: Vmas, key: nat, start: nat, end: nat, prot: nat, k: nat, l: nat)
    requires Ordered(vmas) && start <= end && key in Overlapping(vmas, start, end)
    requires k in Protect(vmas, key, start, end, prot) && l in Protect(vmas, key, start, end, prot) && k < l
    ensures Protect(vmas, key, start, end, prot)[k].end <= l
  {
    ProtectMembers(vmas, key, start, end, prot, k);
    ProtectMembers(vmas, key, start, end, prot, l);
  }

  lemma ProtectOrdered(vmas: Vmas, key: nat, start: nat, end: nat, prot: nat)
    requires Ordered(vmas) && start <= end && key in Overlapping(vmas, start, end)
    ensures Ordered(Protect(vmas, key, start, end, prot))
    ensures NonEmpty(vmas) && start < end ==> NonEmpty(Protect(vmas, key, start, end, prot))
  {
    var w := Protect(vmas, key, start, end, prot);
    forall l | l in w
      ensures w[l].start == l <= w[l].end
      ensures NonEmpty(vmas) && start < end ==> l < w[l].end
    {
      ProtectMembers(vmas, key, start, end, prot, l);
    }
    forall k, l | k in w && l in w && k < l ensures w[k].end <= l {
      ProtectDisjoint(vmas, key, start, end, prot, k, l);
    }
  }

  /** The keys still to visit are untouched, and every other overlapping area has the new protection. */
  lemma ProtectProgress(vmas: Vmas, key: nat, start: nat, end: nat, prot: nat, todo: set<nat>)
    requires Ordered(vmas) && start < end && key in todo && todo <= Overlapping(vmas, start, end)
    requires forall k :: k in Overlapping(vmas, start, end) - todo ==> vmas[k].payload.prot == prot
    ensures var w := Protect(vmas, key, start, end, prot);
            && todo - {key} <= Overlapping(w, start, end)
            && forall k :: k in Overlapping(w, start, end) - (todo - {key}) ==> w[k].payload.prot == prot
  {
    var w := Protect(vmas, key, start, end, prot);
    forall k: nat
      ensures k in todo - {key} ==> k in Overlapping(w, start, end)
      ensures k in Overlapping(w, start, end) - (todo - {key}) ==> w[k].payload.prot == prot
    {
      ProtectMembers(vmas, key, start, end, prot, k);
    }
  }

  lemma ProtectCarries(vmas: Vmas, key: nat, start: nat, end: nat, prot: nat, a: nat)
    requires Ordered(vmas) && start < end && key in Overlapping(vmas, start, end)
    ensures var o := if start <= a < end then Some(prot) else None;
            var w := Protect(vmas, key, start, end, prot);
            Carries(vmas, w, a, o) && Carries(w, vmas, a, o)
  {
    var o := if start <= a < end then Some(prot) else None;
    var w := Protect(vmas, key, start, end, prot);
    var mid: nat := Max(key, start);
    forall k: nat | Covers(vmas, k, a)
      ensures exists l: nat :: Covers(w, l, a) && Blur(w[l].payload, o) == Blur(vmas[k].payload, o)
    {
      var l := if k != key then k else if a >= end then end else if a >= start then mid else key;
      ProtectMembers(vmas, key, start, end, prot, l);
      assert Covers(w, l, a);
    }
    forall l: nat | Covers(w, l, a)
      ensures exists k: nat :: Covers(vmas, k, a) && Blur(vmas[k].payload, o) == Blur(w[l].payload, o)
    {
      var k := if l == mid || (l == end && vmas[key].end > end) then key else l;
      ProtectMembers(vmas, key, start, end, prot, l);
      assert Covers(vmas, k, a);
    }
  }

  lemma ProtectReprotect(vmas: Vmas, key: nat, start: nat, end: nat, prot: nat)
    requires Ordered(vmas) && start < end && key in Overlapping(vmas, start, end)
    ensures Reprotect(View(Protect(vmas, key, start, end, prot)), start, end, prot) ==
              Reprotect(View(vmas), start, end, prot)
  {
    var w := Protect(vmas, key, start, end, prot);
    forall a: nat ensures SameBut(vmas, w, start, end, prot, a) {
      ProtectSame(vmas, key, start, end, prot, a);
    }
    SameReprotect(vmas, w, start, end, prot);
  }

  /** Address `a` carries the same in both, but for the protection inside the range. */
  ghost predicate SameBut(v: Vmas, w: Vmas, start: nat, end: nat, prot: nat, a: nat) {
    && (Mapped(w, a) <==> Mapped(v, a))
    && (Mapped(v, a) ==> var o := if start <= a < end then Some(prot) else None;
                         Blur(PayloadAt(w, a), o) == Blur(PayloadAt(v, a), o))
  }

  lemma ProtectSame(vmas: Vmas, key: nat, start: nat, end: nat, prot: nat, a: nat)
    requires Ordered(vmas) && start < end && key in Overlapping(vmas, start, end)
    ensures SameBut(vmas, Protect(vmas, key, start, end, prot), start, end, prot, a)
  {
    var w := Protect(vmas, key, start, end, prot);
    var o := if start <= a < end then Some(prot) else None;
    ProtectOrdered(vmas, key, start, end, prot);
    ProtectCarries(vmas, key, start, end, prot, a);
    if Mapped(vmas, a) { CarriesPayload(vmas, w, a, o); }
    if Mapped(w, a) { CarriesPayload(w, vmas, a, o); }
  }

  lemma SameReprotect(v: Vmas, w: Vmas, start: nat, end: nat, prot: nat)
    requires forall a: nat {:trigger SameBut(v, w, start, end, prot, a)} :: SameBut(v, w, start, end, prot, a)
    ensures Reprotect(View(w), start, end, prot) == Reprotect(View(v), start, end, prot)
  {
    forall a: nat
      ensures a in View(w) <==> a in View(v)
      ensures a in View(v) ==> Reprotect(View(w), start, end, prot)[a] == Reprotect(View(v), start, end, prot)[a]
    {
      assert SameBut(v, w, start, end, prot, a);
    }
  }

  lemma AllProtected(vmas: Vmas, start: nat, end: nat, prot: nat)
    requires Ordered(vmas)
    requires forall k :: k in Overlapping(vmas, start, end) ==> vmas[k].payload.prot == prot
    ensures Reprotect(View(vmas), start, end, prot) == View(vmas)
  {
    var view := View(vmas);
    forall a: nat | a in view && start <= a < end ensures view[a].prot == prot {
      var k: nat :| Covers(vmas, k, a);
      ViewAt(vmas, k, a);
      assert k in Overlapping(vmas, start, end);
    }
    ReprotectNothing(view, start, end, prot);
  }

  lemma ReprotectNothing(view: imap<nat, Payload>, start: nat, end: nat, prot: nat)
    requires forall a: nat :: a in view && start <= a < end ==> view[a].prot == prot
    ensures Reprotect(view, start, end, prot) == view
  {
  }

  // `find`.

  lemma {:induction false} HasMaximum(s: set<nat>)
    requires s != {}
    ensures exists k: nat :: k in s && forall j :: j in s ==> j <= k
  {
    var x :| x in s;
    if s == {x} {
      assert x in s;
    } else {
      HasMaximum(s - {x});
      var k :| k in s - {x} && forall j :: j in s - {x} ==> j <= k;
      var m := if x < k then k else x;
      forall j | j in s ensures j <= m {
        assert j == x || j in s - {x};
      }
      assert m in s;
    }
  }

  /** The area at the largest key not above `addr`, if it reaches beyond `addr`. */
  function Find(vmas: Vmas, addr: nat): Option<Vma> {
    var below := set k | k in vmas && k <= addr;
    if below == {} then None
    else
      var k := Greatest(below);
      if vmas[k].end > addr then Some(vmas[k]) else None
  }

  function Greatest(s: set<nat>): (k: nat)
    requires s != {}
    ensures k in s && forall j :: j in s ==> j <= k
  {
    HasMaximum(s);
    var k: nat :| k in s && forall j :: j in s ==> j <= k;
    k
  }

  /** `find` reads off the reference function. */
  lemma FindAgrees(vmas: Vmas, view: imap<nat, Payload>, addr: nat)
    requires Ordered(vmas) && NonEmpty(vmas) && Shows(vmas, view)
    ensures Find(vmas, addr).Some? <==> addr in view
    ensures Find(vmas, addr).Some? ==> Find(vmas, addr).value.payload == view[addr]
  {
    if Mapped(vmas, addr) {
      var k: nat :| Covers(vmas, k, addr);
      ViewAt(vmas, k, addr);
      var below := set l | l in vmas && l <= addr;
      assert k in below && forall j :: j in below ==> j <= k;
      assert Greatest(below) == k;
    } else if Find(vmas, addr).Some? {
      var k := Find(vmas, addr).value.start;
      assert Covers(vmas, k, addr);
    }
  }

  /** `view` is the reference meaning of `vmas`. */
  ghost predicate Shows(vmas: Vmas, view: imap<nat, Payload>) {
    forall a: nat {:trigger Mapped(vmas, a)} ::
      (a in view <==> Mapped(vmas, a)) && (a in view ==> view[a] == PayloadAt(vmas, a))
  }

  lemma ShownIsView(vmas: Vmas, view: imap<nat, Payload>)
    requires Shows(vmas, view)
    ensures view == View(vmas)
  {
    ShowsView(vmas, view);
  }

  lemma ViewIsShown(vmas: Vmas, view: imap<nat, Payload>)
    requires view == View(vmas)
    ensures Shows(vmas, view)
  {
    ShowsView(vmas, view);
  }

  lemma ProtectShown(before: Vmas, after: Vmas, view: imap<nat, Payload>, start: nat, end: nat, prot: nat)
    requires Shows(before, view)
    ensures view == View(before)
    ensures View(after) == Reprotect(View(before), start, end, prot) ==> Shows(after, Reprotect(view, start, end, prot))
  {
    ShownIsView(before, view);
    if View(after) == Reprotect(View(before), start, end, prot) {
      ViewIsShown(after, Reprotect(view, start, end, prot));
    }
  }

  lemma ShowsView(vmas: Vmas, view: imap<nat, Payload>)
    ensures Shows(vmas, view) <==> view == View(vmas)
  {
    if Shows(vmas, view) {
      forall a: nat ensures a in view <==> a in View(vmas) {
        assert Mapped(vmas, a) <==> a in view;
      }
    }
  }

  class VmaMap {
    var vmas: Vmas
    ghost var view: imap<nat, Payload>

    ghost predicate Valid()
      reads this
    {
      Ordered(vmas) && NonEmpty(vmas) && Shows(vmas, view)
    }

    constructor ()
      ensures Valid() && view == imap[]
    {
      vmas := map[];
      view := imap[];
    }

    method RemoveRange(start: nat, end: nat)
      requires Ordered(vmas) && start <= end
      modifies `vmas
      ensures Ordered(vmas) && (old(NonEmpty(vmas)) ==> NonEmpty(vmas))
      ensures Overlapping(vmas, start, end) == {}
      ensures View(vmas) == Outside(old(View(vmas)), start, end)
    {
      var keys := Overlapping(vmas, start, end);
      while keys != {}
        invariant Ordered(vmas) && (old(NonEmpty(vmas)) ==> NonEmpty(vmas))
        invariant keys == Overlapping(vmas, start, end)
        invariant Outside(View(vmas), start, end) == Outside(old(View(vmas)), start, end)
      {
        var key :| key in keys;
        CutOrdered(vmas, key, start, end);
        CutOutside(vmas, key, start, end);
        var vma := vmas[key];
        vmas := vmas - {key};
        if vma.start < start {
          vmas := vmas[vma.start := vma.(end := start)];
        }
        if vma.end > end {
          vmas := vmas[end := vma.(start := end)];
        }
        keys := keys - {key};
      }
      NothingInside(vmas, start, end);
    }

    /**
     * Puts one area over [start, end), whatever was there before. An empty range is harmless
     * exactly when its address is not mapped: otherwise the area from there on is lost.
     */
    method Map(start: nat, end: nat, p: Payload)
      requires Valid() && start <= end
      modifies this
      ensures start < end ==> Valid()
      ensures start < end ==> view == Overwrite(old(view), start, end, p)
      ensures start == end ==> (View(vmas) == old(view) <==> start !in old(view))
    {
      ShowsView(vmas, view);
      RemoveRange(start, end);
      if start < end {
        InsertView(vmas, start, end, p);
        OverwriteOutside(view, start, end, p);
      } else {
        OutsideNothing(view, start);
        InsertEmpty(vmas, start, p);
      }
      vmas := vmas[start := Vma(start, end, p)];
      view := if start < end then Overwrite(view, start, end, p) else view;
      ShowsView(vmas, view);
    }

    /** Erases [start, start + len), splitting areas at its ends. */
    method Unmap(start: nat, len: nat)
      requires Valid()
      modifies this
      ensures Valid()
      ensures view == Outside(old(view), start, start + len)
    {
      ShowsView(vmas, view);
      RemoveRange(start, start + len);
      view := Outside(view, start, start + len);
      ShowsView(vmas, view);
    }

    /** The loop body of `Mprotect`: trims the area at `key` to the range and reprotects it. */
    method ProtectOne(key: nat, start: nat, end: nat, prot: nat)
      requires key in vmas
      modifies `vmas
      ensures vmas == Protect(old(vmas), key, start, end, prot)
    {
      var vma := vmas[key];
      vmas := vmas - {key};
      if vma.start < start {
        vmas := vmas[vma.start := vma.(end := start)];
        vma := vma.(start := start);
      }
      if vma.end > end {
        vmas := vmas[end := vma.(start := end)];
        vma := vma.(end := end);
      }
      vma := vma.(payload := vma.payload.(prot := prot));
      vmas := vmas[vma.start := vma];
    }

    /**
     * Changes the protection of exactly the mapped addresses in [start, start + len). An empty
     * range is harmless exactly when no area lies across `start`.
     */
    method Mprotect(start: nat, len: nat, prot: nat)
      requires Valid()
      modifies this
      ensures len > 0 ==> Valid()
      ensures len > 0 ==> view == Reprotect(old(view), start, start + len, prot)
      ensures len == 0 ==> (View(vmas) == old(view) <==> Overlapping(old(vmas), start, start) == {})
    {
      ProtectAll(start, start + len, prot);
      if len > 0 {
        view := Reprotect(view, start, start + len, prot);
      }
    }

    method ProtectAll(start: nat, end: nat, prot: nat)
      requires Valid() && start <= end
      modifies `vmas
      ensures start < end ==> Ordered(vmas) && NonEmpty(vmas) && Shows(vmas, Reprotect(view, start, end, prot))
      ensures start == end ==> (View(vmas) == view <==> Overlapping(old(vmas), start, start) == {})
    {
      var keys := Overlapping(vmas, start, end);
      while keys != {}
        invariant Progress(old(vmas), vmas, keys, start, end, prot)
      {
        var key :| key in keys;
        ProgressStep(old(vmas), vmas, keys, start, end, prot, key);
        ProtectOne(key, start, end, prot);
        keys := keys - {key};
      }
      ProgressDone(old(vmas), vmas, start, end, prot);
      ProtectShown(old(vmas), vmas, view, start, end, prot);
    }
  }

  /** An empty `map` inside [0, 8192) leaves everything from its address on unmapped. */
  lemma EmptyMapLoses(p: Payload, q: Payload)
    ensures var before := map[0 := Vma(0, 8192, p)];
            && 0 in Overlapping(before, 4096, 4096)
            && 4096 in View(before) && 4096 !in View(Cut(before, 0, 4096, 4096)[4096 := Vma(4096, 4096, q)])
  {
    var before := map[0 := Vma(0, 8192, p)];
    var cut := Cut(before, 0, 4096, 4096);
    assert Covers(before, 0, 4096);
    assert cut == map[0 := Vma(0, 4096, p), 4096 := Vma(4096, 8192, p)];
  }

  /** An empty `mprotect` inside [0, 8192) does the same. */
  lemma EmptyProtectLoses(p: Payload, prot: nat)
    ensures var before := map[0 := Vma(0, 8192, p)];
            && 0 in Overlapping(before, 4096, 4096)
            && 4096 in View(before) && 4096 !in View(Protect(before, 0, 4096, 4096, prot))
  {
    var before := map[0 := Vma(0, 8192, p)];
    assert Covers(before, 0, 4096);
    assert Protect(before, 0, 4096, 4096, prot) ==
           map[0 := Vma(0, 4096, p), 4096 := Vma(4096, 4096, p.(prot := prot))];
  }

  lemma OutsideNothing(view: imap<nat, Payload>, start: nat)
    ensures Outside(view, start, start) == view
  {
  }

  /** The state of the `Mprotect` loop with the areas at `keys` still to visit. */
  ghost predicate Progress(before: Vmas, vmas: Vmas, keys: set<nat>, start: nat, end: nat, prot: nat) {
    && Ordered(vmas) && keys <= Overlapping(vmas, start, end)
    && (start < end ==>
          && NonEmpty(vmas)
          && (forall k :: k in Overlapping(vmas, start, end) - keys ==> vmas[k].payload.prot == prot)
          && Reprotect(View(vmas), start, end, prot) == Reprotect(View(before), start, end, prot))
    && (start == end ==>
          || (vmas == before && keys == Overlapping(vmas, start, end))
          || (keys == {} && start in View(before) && start !in View(vmas) && Overlapping(before, start, start) != {}))
  }

  lemma ProgressStep(before: Vmas, vmas: Vmas, keys: set<nat>, start: nat, end: nat, prot: nat, key: nat)
    requires Progress(before, vmas, keys, start, end, prot) && start <= end && key in keys
    ensures Progress(before, Protect(vmas, key, start, end, prot), keys - {key}, start, end, prot)
  {
    ProtectOrdered(vmas, key, start, end, prot);
    if start < end {
      ProtectProgress(vmas, key, start, end, prot, keys);
      ProtectReprotect(vmas, key, start, end, prot);
    } else {
      OnlyOneAcross(vmas, key, start);
      ProtectEmpty(vmas, key, start, prot);
    }
  }

  lemma ProgressDone(before: Vmas, vmas: Vmas, start: nat, end: nat, prot: nat)
    requires Progress(before, vmas, {}, start, end, prot) && start <= end
    ensures start < end ==> View(vmas) == Reprotect(View(before), start, end, prot)
    ensures start == end ==> (View(vmas) == View(before) <==> Overlapping(before, start, start) == {})
  {
    if start < end {
      AllProtected(vmas, start, end, prot);
    }
  }

  lemma OnlyOneAcross(vmas: Vmas, key: nat, start: nat)
    requires Ordered(vmas) && key in Overlapping(vmas, start, start)
    ensures Overlapping(vmas, start, start) == {key}
  {
  }

  lemma ProtectEmpty(vmas: Vmas, key: nat, start: nat, prot: nat)
    requires Ordered(vmas) && key in Overlapping(vmas, start, start)
    ensures start in View(vmas) && start !in View(Protect(vmas, key, start, start, prot))
  {
    assert Covers(vmas, key, start);
    var w := Protect(vmas, key, start, start, prot);
    forall k: nat ensures !Covers(w, k, start) {
      ProtectMembers(vmas, key, start, start, prot, k);
    }
  }

  lemma InsertEmpty(vmas: Vmas, start: nat, p: Payload)
    requires Ordered(vmas) && NonEmpty(vmas) && Overlapping(vmas, start, start) == {}
    ensures View(vmas[start := Vma(start, start, p)]) == View(vmas) <==> start !in View(vmas)
  {
    if start in View(vmas) {
      EmptyAreaHides(vmas, start, p);
    } else {
      EmptyAreaHarmless(vmas, start, p);
    }
  }

  lemma EmptyAreaHides(vmas: Vmas, start: nat, p: Payload)
    requires Ordered(vmas) && Overlapping(vmas, start, start) == {}
    ensures !Mapped(vmas[start := Vma(start, start, p)], start)
  {
    var w := vmas[start := Vma(start, start, p)];
    forall k: nat ensures !Covers(w, k, start) {
      assert k !in Overlapping(vmas, start, start);
    }
  }

  /** An empty area covers nothing, and where it replaces none, all others cover what they did. */
  lemma EmptyAreaCovers(vmas: Vmas, start: nat, p: Payload, k: nat, a: nat)
    requires !Covers(vmas, start, start) && (start in vmas ==> start < vmas[start].end)
    ensures Covers(vmas[start := Vma(start, start, p)], k, a) <==> Covers(vmas, k, a)
  {
  }

  lemma EmptyAreaAt(vmas: Vmas, start: nat, p: Payload, a: nat)
    requires Ordered(vmas) && NonEmpty(vmas) && !Mapped(vmas, start)
    ensures var w := vmas[start := Vma(start, start, p)];
            (Mapped(w, a) <==> Mapped(vmas, a)) && (Mapped(vmas, a) ==> PayloadAt(w, a) == PayloadAt(vmas, a))
  {
    var w := vmas[start := Vma(start, start, p)];
    assert !Covers(vmas, start, start);
    forall k: nat ensures Covers(w, k, a) <==> Covers(vmas, k, a) {
      EmptyAreaCovers(vmas, start, p, k, a);
    }
    if Mapped(vmas, a) {
      var k: nat :| Covers(vmas, k, a);
      OneArea(vmas, k, a);
      forall l: nat | Covers(w, l, a) ensures l == k {
        assert Covers(vmas, l, a);
      }
    }
  }

  lemma OneArea(vmas: Vmas, k: nat, a: nat)
    requires Ordered(vmas) && Covers(vmas, k, a)
    ensures PayloadAt(vmas, a) == vmas[k].payload && forall l: nat :: Covers(vmas, l, a) ==> l == k
  {
  }

  lemma EmptyAreaHarmless(vmas: Vmas, start: nat, p: Payload)
    requires Ordered(vmas) && NonEmpty(vmas) && !Mapped(vmas, start)
    ensures View(vmas[start := Vma(start, start, p)]) == View(vmas)
  {
    var w := vmas[start := Vma(start, start, p)];
    forall a: nat
      ensures a in View(w) <==> a in View(vmas)
      ensures a in View(vmas) ==> View(w)[a] == View(vmas)[a]
    {
      EmptyAreaAt(vmas, start, p, a);
    }
  }

  lemma OverwriteOutside(view: imap<nat, Payload>, start: nat, end: nat, p: Payload)
    ensures Overwrite(Outside(view, start, end), start, end, p) == Overwrite(view, start, end, p)
  {
  }

  lemma NoneInside(vmas: Vmas, start: nat, end: nat, k: nat)
    requires start < end && Overlapping(vmas, start, end) == {} && k in vmas && vmas[k].start == k
    ensures k >= end || vmas[k].end <= start
  {
    assert k !in Overlapping(vmas, start, end);
  }

  lemma InsertOrdered(vmas: Vmas, start: nat, end: nat, p: Payload)
    requires Ordered(vmas) && NonEmpty(vmas) && start < end && Overlapping(vmas, start, end) == {}
    ensures var w := vmas[start := Vma(start, end, p)]; Ordered(w) && NonEmpty(w)
  {
    forall k | k in vmas ensures k >= end || vmas[k].end <= start {
      NoneInside(vmas, start, end, k);
    }
  }

  lemma InsertAt(vmas: Vmas, start: nat, end: nat, p: Payload, a: nat)
    requires Ordered(vmas) && NonEmpty(vmas) && start < end && Overlapping(vmas, start, end) == {}
    ensures var w := vmas[start := Vma(start, end, p)];
            && (Mapped(w, a) <==> Mapped(vmas, a) || start <= a < end)
            && (Mapped(w, a) ==> PayloadAt(w, a) == if start <= a < end then p else PayloadAt(vmas, a))
  {
    var w := vmas[start := Vma(start, end, p)];
    InsertOrdered(vmas, start, end, p);
    if start <= a < end {
      ViewAt(w, start, a);
    } else if Mapped(vmas, a) {
      var k: nat :| Covers(vmas, k, a);
      NoneInside(vmas, start, end, k);
      ViewAt(vmas, k, a);
      ViewAt(w, k, a);
    } else if Mapped(w, a) {
      var k: nat :| Covers(w, k, a);
      assert Covers(vmas, k, a);
    }
  }

  lemma InsertView(vmas: Vmas, start: nat, end: nat, p: Payload)
    requires Ordered(vmas) && NonEmpty(vmas) && start < end && Overlapping(vmas, start, end) == {}
    ensures var w := vmas[start := Vma(start, end, p)];
            && Ordered(w) && NonEmpty(w)
            && View(w) == Overwrite(View(vmas), start, end, p)
  {
    InsertOrdered(vmas, start, end, p);
    var w, view := vmas[start := Vma(start, end, p)], Overwrite(View(vmas), start, end, p);
    forall a: nat ensures (a in view <==> Mapped(w, a)) && (a in view ==> view[a] == PayloadAt(w, a)) {
      InsertAt(vmas, start, end, p, a);
    }
    ShownIsView(w, view);
  }
}

/** The initial stack of a user process (kernel/src/sched/elf.rs, `setup_user_stack`). */
module ElfStack {
  import opened Common
  import opened LittleEndian
  import opened PageTable
  import opened Paging
  import opened MapRange
  import opened UserCopy

  /** User memory: the bytes of the mapped addresses. */
  type Bytes = imap<nat, byte>

  /** What a program reads at an address: the byte its page leads to. */
  ghost function UserByte(s: Snapshot, x: nat): byte
    requires Backed(s) && x / 4096 in s.pages
  {
    assert BackedAt(s, x / 4096);
    s.m[s.pages[x / 4096].frame][x % 4096]
  }

  ghost function UserBytes(s: Snapshot): Bytes
    requires Backed(s)
  {
    imap x: nat | x / 4096 in s.pages :: UserByte(s, x)
  }

  // What memory holds.

  ghost predicate BytesAt(m: Bytes, a: int, data: seq<byte>) {
    forall x: int {:trigger x in m} :: a <= x < a + |data| ==> x in m && m[x] == data[x - a]
  }

  /** The 64-bit word `w` at `a`, least significant byte first. */
  ghost predicate WordAt(m: Bytes, a: int, w: int) {
    w >= 0 && BytesAt(m, a, ToLe(w, 8))
  }

  /** A table of words from `a` upward. */
  ghost predicate Table(m: Bytes, a: int, ws: seq<int>) {
    forall i {:trigger ws[i]} :: 0 <= i < |ws| ==> WordAt(m, a + 8 * i, ws[i])
  }

  /** NUL-terminated strings at the given addresses. */
  ghost predicate Strings(m: Bytes, ptrs: seq<int>, strs: seq<seq<byte>>) {
    && |ptrs| == |strs|
    && forall i {:trigger strs[i]} {:trigger ptrs[i]} :: 0 <= i < |strs| ==>
         ptrs[i] >= 0 && BytesAt(m, ptrs[i], strs[i] + [0])
  }

  ghost predicate SameFrom(m: Bytes, m': Bytes, lo: int) {
    forall x: int {:trigger x in m'} {:trigger x in m} :: x >= lo ==>
      (x in m <==> x in m') && (x in m ==> m'[x] == m[x])
  }

  ghost predicate SameOutside(m: Bytes, m': Bytes, lo: int, hi: int) {
    forall x: int {:trigger x in m'} {:trigger x in m} ::
      (x in m <==> x in m') && (x in m && !(lo <= x < hi) ==> m'[x] == m[x])
  }

  ghost predicate Mapped(m: Bytes, lo: int, hi: int) {
    forall x: int {:trigger x in m} :: lo <= x < hi ==> x in m
  }

  /** A range is mapped byte by byte exactly when all pages it touches are. */
  lemma CoveredMapped(s: Snapshot, a: nat, n: nat)
    requires Backed(s)
    ensures Covered(s.pages, a, n) <==> Mapped(UserBytes(s), a, a + n)
  {
    if Covered(s.pages, a, n) {
      forall x: int | a <= x < a + n ensures x in UserBytes(s) {
        assert Touches(x / 4096, a, n);
      }
    }
    if Mapped(UserBytes(s), a, a + n) {
      forall v: nat | Touches(v, a, n) ensures v in s.pages {
        var x := Max(a, v * 4096);
        assert x in UserBytes(s) && x / 4096 == v;
      }
    }
  }

  lemma OverlaidByte(start: Snapshot, now: Snapshot, a: nat, written: seq<byte>, x: nat)
    requires Backed(start) && Backed(now) && now.pages == start.pages && Overlaid(start, now, a, written)
    requires x / 4096 in now.pages
    ensures UserByte(now, x) == if a <= x < a + |written| then written[x - a] else UserByte(start, x)
  {
    assert BackedAt(now, x / 4096) && BackedAt(start, x / 4096) && OverlaidAt(start, now, a, written, x / 4096);
    assert x == x / 4096 * 4096 + x % 4096;
    assert UserByte(now, x) == ByteAfter(start, a, written, x / 4096, x % 4096);
  }

  lemma OverlaidBytes(start: Snapshot, now: Snapshot, a: nat, data: seq<byte>, done: nat)
    requires Backed(start) && Backed(now) && now.pages == start.pages && done <= |data|
    requires Overlaid(start, now, a, data[..done])
    ensures SameOutside(UserBytes(start), UserBytes(now), a, a + |data|)
    ensures done == |data| && Covered(now.pages, a, |data|) ==> BytesAt(UserBytes(now), a, data)
  {
    forall x: nat | x / 4096 in now.pages
      ensures UserByte(now, x) == if a <= x < a + done then data[x - a] else UserByte(start, x)
    {
      OverlaidByte(start, now, a, data[..done], x);
    }
    CoveredMapped(now, a, |data|);
  }

  /** The memory of a process that is about to start, reached through its page tables. */
  class UserMemory {
    const aspace: AddressSpace
    ghost var m: Bytes

    /** Address `x` reads through sound page tables as `m` says. */
    ghost predicate ReadsAs(x: nat)
      reads this, aspace, aspace.pmm, aspace.pmm.bitmap, aspace.mem
    {
      && aspace.Valid() && Backed(Now(aspace)) && Apart(aspace.Pages())
      && (x in m <==> x in UserBytes(Now(aspace))) && (x in m ==> m[x] == UserBytes(Now(aspace))[x])
    }

    ghost predicate Valid()
      reads this, aspace, aspace.pmm, aspace.pmm.bitmap, aspace.mem
    {
      forall x: nat {:trigger ReadsAs(x)} :: ReadsAs(x)
    }

    constructor (aspace: AddressSpace)
      requires aspace.Valid() && Backed(Now(aspace)) && Apart(aspace.Pages())
      ensures Valid() && this.aspace == aspace && m == UserBytes(Now(aspace))
    {
      this.aspace := aspace;
      m := UserBytes(Now(aspace));
    }

    /** What `Valid` says about all addresses at once. */
    lemma Shown()
      requires Valid()
      ensures aspace.Valid() && Backed(Now(aspace)) && Apart(aspace.Pages()) && m == UserBytes(Now(aspace))
    {
      assert ReadsAs(0);
      ghost var bytes := UserBytes(Now(aspace));
      forall x: nat ensures (x in m <==> x in bytes) && (x in m ==> m[x] == bytes[x]) {
        assert ReadsAs(x);
      }
    }

    /** Fails exactly when a byte of the range is unmapped. */
    method CopyToUser(a: int, data: seq<byte>) returns (ok: bool)
      requires Valid() && a + |data| <= VA_LIMIT
      modifies `m, aspace.mem
      ensures Valid()
      ensures ok <==> old(Mapped(m, a, a + |data|))
      ensures ok ==> BytesAt(m, a, data)
      ensures SameOutside(old(m), m, a, a + |data|)
    {
      if a < 0 {
        assert |data| > 0 ==> !(a in m);
        return |data| == 0;
      }
      Shown();
      ghost var start := Now(aspace);
      CoveredMapped(start, a, |data|);
      ghost var done;
      ok, done := WriteMapped(aspace, a, data);
      OverlaidBytes(start, Now(aspace), a, data, done);
      m := UserBytes(Now(aspace));
    }
  }

  lemma BytesStay(m: Bytes, m': Bytes, a: int, data: seq<byte>)
    requires BytesAt(m, a, data) && SameFrom(m, m', a)
    ensures BytesAt(m', a, data)
  {
    forall x: int | a <= x < a + |data| ensures x in m' && m'[x] == data[x - a] {
      assert x in m;
    }
  }

  lemma TableStays(m: Bytes, m': Bytes, a: int, ws: seq<int>)
    requires Table(m, a, ws) && SameFrom(m, m', a)
    ensures Table(m', a, ws)
  {
    forall i | 0 <= i < |ws| ensures WordAt(m', a + 8 * i, ws[i]) {
      BytesStay(m, m', a + 8 * i, ToLe(ws[i], 8));
    }
  }

  lemma StringsStay(m: Bytes, m': Bytes, lo: int, ptrs: seq<int>, strs: seq<seq<byte>>)
    requires Strings(m, ptrs, strs) && SameFrom(m, m', lo) && forall i :: 0 <= i < |ptrs| ==> lo <= ptrs[i]
    ensures Strings(m', ptrs, strs)
  {
    forall i | 0 <= i < |strs| ensures BytesAt(m', ptrs[i], strs[i] + [0]) {
      BytesStay(m, m', ptrs[i], strs[i] + [0]);
    }
  }

  // The layout.

  function Down8(sp: int): (r: int)
    ensures r % 8 == 0 && sp - 8 < r <= sp
  {
    sp - sp % 8
  }

  function Down16(sp: int): (r: int)
    ensures r % 16 == 0 && sp - 16 < r <= sp
  {
    sp - sp % 16
  }

  /** Where a string goes that is pushed at `sp`. */
  function Place(sp: int, s: seq<byte>): (r: int)
    ensures r + |s| + 1 <= sp && r % 8 == 0
  {
    Down8(sp - (|s| + 1))
  }

  /** The stack pointer and the strings' addresses after pushing the last string first. */
  function SpAfter(sp: int, strs: seq<seq<byte>>): (r: int)
    ensures r <= sp
    decreases |strs|
  {
    if |strs| == 0 then sp else SpAfter(Place(sp, strs[|strs| - 1]), strs[..|strs| - 1])
  }

  function Ptrs(sp: int, strs: seq<seq<byte>>): (r: seq<int>)
    ensures |r| == |strs|
    decreases |strs|
  {
    if |strs| == 0 then []
    else var p := Place(sp, strs[|strs| - 1]); Ptrs(p, strs[..|strs| - 1]) + [p]
  }

  /** The pointers lie between the two stack pointers, each string ending before the next begins. */
  lemma {:induction false} PtrsOrdered(sp: int, strs: seq<seq<byte>>)
    ensures forall i {:trigger Ptrs(sp, strs)[i]} :: 0 <= i < |strs| ==>
              && SpAfter(sp, strs) <= Ptrs(sp, strs)[i] && Ptrs(sp, strs)[i] % 8 == 0
              && Ptrs(sp, strs)[i] + |strs[i]| + 1 <= if i + 1 < |strs| then Ptrs(sp, strs)[i + 1] else sp
    decreases |strs|
  {
    if |strs| > 0 {
      PtrsOrdered(Place(sp, strs[|strs| - 1]), strs[..|strs| - 1]);
    }
  }

  // Pushing.

  lemma OutsideTwice(m0: Bytes, m1: Bytes, m2: Bytes, lo: int, mid: int, hi: int)
    requires SameOutside(m0, m1, mid, hi) && SameOutside(m1, m2, lo, mid) && lo <= mid <= hi
    ensures SameOutside(m0, m2, lo, hi) && SameFrom(m1, m2, mid)
  {
  }

  lemma NotMappedLonger(m: Bytes, m': Bytes, a: int, b: int, lo: int, hi: int)
    requires SameOutside(m, m', b, hi) && !Mapped(m', a, b) && lo <= a && b <= hi
    ensures !Mapped(m, lo, hi)
  {
    var x: int :| a <= x < b && x !in m';
    assert x !in m;
  }

  /** Pushes one string below those pushed before. */
  method PushString(mem: UserMemory, sp: int, s: seq<byte>, ghost ptrs: seq<int>,
                    ghost strs: seq<seq<byte>>) returns (ok: bool, p: int)
    requires mem.Valid() && sp <= VA_LIMIT
    requires Strings(mem.m, ptrs, strs) && forall j :: 0 <= j < |ptrs| ==> sp <= ptrs[j]
    modifies mem`m, mem.aspace.mem
    ensures mem.Valid()
    ensures p == Place(sp, s) && SameOutside(old(mem.m), mem.m, p, sp)
    ensures ok ==> Strings(mem.m, [p] + ptrs, [s] + strs)
    ensures !ok ==> !old(Mapped(mem.m, p, sp))
  {
    ghost var m := mem.m;
    p := Place(sp, s);
    ok := mem.CopyToUser(p, s + [0]);
    OutsideWider(m, mem.m, p, p + |s| + 1, sp);
    if ok {
      StringsStay(m, mem.m, sp, ptrs, strs);
      StringsGrow(mem.m, p, s, ptrs, strs);
    } else {
      NotMappedLonger(m, m, p, p + |s| + 1, p, sp);
    }
  }

  /** Pushes the strings last to first, each with its NUL, at 8-byte boundaries. */
  method PushStrings(mem: UserMemory, top: int, strs: seq<seq<byte>>) returns (ok: bool, sp: int, ptrs: seq<int>)
    requires mem.Valid() && top <= VA_LIMIT
    modifies mem`m, mem.aspace.mem
    ensures mem.Valid()
    ensures SameOutside(old(mem.m), mem.m, SpAfter(top, strs), top)
    ensures ok ==> sp == SpAfter(top, strs) && ptrs == Ptrs(top, strs) && Strings(mem.m, ptrs, strs)
    ensures !ok ==> !old(Mapped(mem.m, SpAfter(top, strs), top))
  {
    sp, ptrs := top, [];
    assert strs[..|strs|] == strs;
    for i := |strs| downto 0
      invariant mem.Valid() && Pushing(old(mem.m), mem.m, top, strs, i, sp, ptrs)
    {
      var p;
      ok, p := PushNext(mem, top, strs, i, sp, ptrs, old(mem.m));
      if !ok {
        return;
      }
      sp, ptrs := p, [p] + ptrs;
    }
    ok := true;
  }

  /** The strings from `i` on are in memory, at `ptrs`, above `sp`. */
  ghost predicate Pushing(m0: Bytes, m: Bytes, top: int, strs: seq<seq<byte>>, i: nat, sp: int, ptrs: seq<int>) {
    && i <= |strs| && sp <= top
    && SpAfter(sp, strs[..i]) == SpAfter(top, strs) && Ptrs(sp, strs[..i]) + ptrs == Ptrs(top, strs)
    && Strings(m, ptrs, strs[i..]) && SameOutside(m0, m, sp, top)
    && forall j :: 0 <= j < |ptrs| ==> sp <= ptrs[j]
  }

  /** One iteration of `PushStrings`. */
  method PushNext(mem: UserMemory, top: int, strs: seq<seq<byte>>, i: nat, sp: int, ptrs: seq<int>, ghost m0: Bytes)
    returns (ok: bool, p: int)
    requires mem.Valid() && top <= VA_LIMIT && i < |strs| && Pushing(m0, mem.m, top, strs, i + 1, sp, ptrs)
    modifies mem`m, mem.aspace.mem
    ensures mem.Valid()
    ensures ok ==> Pushing(m0, mem.m, top, strs, i, p, [p] + ptrs)
    ensures !ok ==> SameOutside(m0, mem.m, SpAfter(top, strs), top) && !Mapped(m0, SpAfter(top, strs), top)
  {
    ghost var m := mem.m;
    LayoutStep(sp, strs, i, ptrs);
    ok, p := PushString(mem, sp, strs[i], ptrs, strs[i + 1..]);
    OutsideTwice(m0, m, mem.m, p, sp, top);
    if !ok {
      NotMappedLonger(m0, m, p, sp, SpAfter(top, strs), top);
      OutsideLower(m0, mem.m, SpAfter(top, strs), p, top);
    }
  }

  lemma LayoutStep(sp: int, strs: seq<seq<byte>>, i: nat, ptrs: seq<int>)
    requires i < |strs|
    ensures var p := Place(sp, strs[i]);
            && SpAfter(sp, strs[..i + 1]) == SpAfter(p, strs[..i])
            && Ptrs(sp, strs[..i + 1]) + ptrs == Ptrs(p, strs[..i]) + ([p] + ptrs)
    ensures [strs[i]] + strs[i + 1..] == strs[i..]
  {
    assert strs[..i + 1][..i] == strs[..i];
  }

  lemma OutsideLower(m: Bytes, m': Bytes, lo: int, mid: int, hi: int)
    requires SameOutside(m, m', mid, hi) && lo <= mid
    ensures SameOutside(m, m', lo, hi)
  {
  }

  lemma OutsideWider(m: Bytes, m': Bytes, lo: int, mid: int, hi: int)
    requires SameOutside(m, m', lo, mid) && mid <= hi
    ensures SameOutside(m, m', lo, hi)
  {
  }

  lemma StringsGrow(m: Bytes, p: int, s: seq<byte>, ptrs: seq<int>, strs: seq<seq<byte>>)
    requires Strings(m, ptrs, strs) && BytesAt(m, p, s + [0])
    ensures Strings(m, [p] + ptrs, [s] + strs)
  {
    assert p in m;
    var all, alls := [p] + ptrs, [s] + strs;
    forall i | 0 <= i < |alls| ensures all[i] >= 0 && BytesAt(m, all[i], alls[i] + [0]) {
      if i > 0 {
        assert all[i] == ptrs[i - 1] && alls[i] == strs[i - 1];
      }
    }
  }

  /** Pushes words so that they can be read upward in order, on top of the table pushed before. */
  method PushWords(mem: UserMemory, top: int, ws: seq<int>, ghost rest: seq<int>) returns (ok: bool, sp: int)
    requires mem.Valid() && top <= VA_LIMIT && Table(mem.m, top, rest) && forall i :: 0 <= i < |ws| ==> ws[i] >= 0
    modifies mem`m, mem.aspace.mem
    ensures mem.Valid()
    ensures SameOutside(old(mem.m), mem.m, top - 8 * |ws|, top)
    ensures ok ==> sp == top - 8 * |ws| && Table(mem.m, sp, ws + rest)
    ensures !ok ==> !old(Mapped(mem.m, top - 8 * |ws|, top))
  {
    sp := top;
    assert ws[|ws|..] + rest == rest;
    for i := |ws| downto 0
      invariant mem.Valid() && sp == top - 8 * (|ws| - i) && Table(mem.m, sp, ws[i..] + rest)
      invariant SameOutside(old(mem.m), mem.m, sp, top)
    {
      ghost var m := mem.m;
      ok := mem.CopyToUser(sp - 8, ToLe(ws[i], 8));
      OutsideTwice(old(mem.m), m, mem.m, sp - 8, sp, top);
      if !ok {
        NotMappedLonger(old(mem.m), m, sp - 8, sp, top - 8 * |ws|, top);
        return;
      }
      TableStays(m, mem.m, sp, ws[i + 1..] + rest);
      TableGrows(mem.m, sp, ws[i], ws[i + 1..] + rest);
      assert [ws[i]] + (ws[i + 1..] + rest) == ws[i..] + rest;
      sp := sp - 8;
    }
    assert ws[0..] + rest == ws + rest;
    ok := true;
  }

  lemma TableGrows(m: Bytes, sp: int, w: int, ws: seq<int>)
    requires Table(m, sp, ws) && WordAt(m, sp - 8, w)
    ensures Table(m, sp - 8, [w] + ws)
  {
    var all := [w] + ws;
    forall i | 0 <= i < |all| ensures WordAt(m, sp - 8 + 8 * i, all[i]) {
      if i > 0 {
        assert WordAt(m, sp + 8 * (i - 1), ws[i - 1]);
      }
    }
  }

  // The whole stack.

  datatype Info = Info(phdr: nat, phent: nat, phnum: nat, entry: nat, base: nat, uid: nat, euid: nat, gid: nat,
                       egid: nat)

  const AT_NULL := 0
  const AT_PHDR := 3
  const AT_PHENT := 4
  const AT_PHNUM := 5
  const AT_PAGESZ := 6
  const AT_BASE := 7
  const AT_ENTRY := 9
  const AT_UID := 11
  const AT_EUID := 12
  const AT_GID := 13
  const AT_EGID := 14
  const AT_RANDOM := 25

  /** The twelve auxiliary pairs in the order a reader meets them. */
  function Auxv(info: Info, random: int): (r: seq<int>)
    ensures |r| == 24
    ensures r[22] == AT_NULL && r[23] == 0 && forall i :: 0 <= i < 11 ==> r[2 * i] != AT_NULL
  {
    [AT_EGID, info.egid, AT_GID, info.gid, AT_EUID, info.euid, AT_UID, info.uid,
     AT_BASE, info.base, AT_ENTRY, info.entry, AT_PHNUM, info.phnum, AT_PHENT, info.phent,
     AT_PHDR, info.phdr, AT_PAGESZ, 4096, AT_RANDOM, random, AT_NULL, 0]
  }

  function RandomAddr(top: int): (r: int)
    ensures r % 16 == 0 && r + 16 <= top
  {
    Down16(top) - 16
  }

  function EnvPtrs(top: int, envp: seq<seq<byte>>): seq<int> {
    Ptrs(RandomAddr(top), envp)
  }

  function ArgPtrs(top: int, argv: seq<seq<byte>>, envp: seq<seq<byte>>): seq<int> {
    Ptrs(SpAfter(RandomAddr(top), envp), argv)
  }

  function StringsEnd(top: int, argv: seq<seq<byte>>, envp: seq<seq<byte>>): (r: int)
    ensures r <= RandomAddr(top)
  {
    SpAfter(SpAfter(RandomAddr(top), envp), argv)
  }

  /** Where the table of words ends: aligned so that its start is aligned too. */
  function TableEnd(top: int, argv: seq<seq<byte>>, envp: seq<seq<byte>>): (r: int)
    ensures r <= StringsEnd(top, argv, envp)
    ensures (r - 8 * (|argv| + |envp| + 27)) % 16 == 0
  {
    TableStart(Down16(StringsEnd(top, argv, envp)), 1 + |argv| + 1 + |envp| + 1 + 2 * 12)
  }

  /** Leaves a word free above a table of `words` words if it could not start aligned otherwise. */
  function TableStart(sp: int, words: nat): (r: int)
    requires sp % 16 == 0
    ensures sp - 8 <= r <= sp && (r - 8 * words) % 16 == 0
  {
    if (words + 2) % 2 != 0 then sp - 8 else sp
  }

  /** What a program reads upward from its stack pointer. */
  function Words(top: int, argv: seq<seq<byte>>, envp: seq<seq<byte>>, info: Info): (r: seq<int>)
    ensures |r| == |argv| + |envp| + 27
  {
    [|argv|] + ArgPtrs(top, argv, envp) + [0] + EnvPtrs(top, envp) + [0] + Auxv(info, RandomAddr(top))
  }

  function FinalSp(top: int, argv: seq<seq<byte>>, envp: seq<seq<byte>>): int {
    TableEnd(top, argv, envp) - 8 * (|argv| + |envp| + 27)
  }

  ghost predicate Built(m: Bytes, sp: int, top: int, argv: seq<seq<byte>>, envp: seq<seq<byte>>, random: seq<byte>,
                        info: Info) {
    && sp == FinalSp(top, argv, envp) && sp % 16 == 0
    && Table(m, sp, Words(top, argv, envp, info))
    && Strings(m, ArgPtrs(top, argv, envp), argv)
    && Strings(m, EnvPtrs(top, envp), envp)
    && BytesAt(m, RandomAddr(top), random)
  }

  /** The strings and the random bytes, from the top down. */
  method PushContents(mem: UserMemory, top: int, argv: seq<seq<byte>>, envp: seq<seq<byte>>, random: seq<byte>)
    returns (ok: bool, argPtrs: seq<int>, envPtrs: seq<int>)
    requires mem.Valid() && top <= VA_LIMIT && |random| == 16
    modifies mem`m, mem.aspace.mem
    ensures mem.Valid()
    ensures SameOutside(old(mem.m), mem.m, StringsEnd(top, argv, envp), top)
    ensures ok ==> argPtrs == ArgPtrs(top, argv, envp) && envPtrs == EnvPtrs(top, envp)
    ensures ok ==>
              Strings(mem.m, argPtrs, argv) && Strings(mem.m, envPtrs, envp) && BytesAt(mem.m, RandomAddr(top), random)
    ensures !ok ==> !old(Mapped(mem.m, StringsEnd(top, argv, envp), top))
  {
    ghost var m0 := mem.m;
    var randomAddr := Down16(top) - 16;
    ghost var end := StringsEnd(top, argv, envp);
    argPtrs, envPtrs := [], [];
    ok := mem.CopyToUser(randomAddr, random);
    OutsideWider(m0, mem.m, randomAddr, randomAddr + 16, top);
    OutsideLower(m0, mem.m, end, randomAddr, top);
    if !ok {
      NotMappedLonger(m0, m0, randomAddr, randomAddr + 16, end, top);
      return;
    }
    ghost var m1 := mem.m;
    var sp;
    ok, sp, envPtrs := PushStrings(mem, randomAddr, envp);
    ghost var envSp := SpAfter(randomAddr, envp);
    OutsideTwice(m0, m1, mem.m, envSp, randomAddr, top);
    OutsideLower(m0, mem.m, end, envSp, top);
    if !ok {
      NotMappedLonger(m0, m1, envSp, randomAddr, end, top);
      return;
    }
    BytesStay(m1, mem.m, randomAddr, random);
    ghost var m2 := mem.m;
    ok, sp, argPtrs := PushStrings(mem, sp, argv);
    OutsideTwice(m0, m2, mem.m, end, envSp, top);
    if !ok {
      NotMappedLonger(m0, m2, end, envSp, end, top);
      return;
    }
    BytesStayAbove(m2, mem.m, envSp, randomAddr, random);
    PtrsOrdered(randomAddr, envp);
    StringsStay(m2, mem.m, envSp, envPtrs, envp);
  }

  lemma BytesStayAbove(m: Bytes, m': Bytes, lo: int, a: int, data: seq<byte>)
    requires BytesAt(m, a, data) && SameFrom(m, m', lo) && lo <= a
    ensures BytesAt(m', a, data)
  {
    BytesStay(m, m', a, data);
  }

  /**
   * Builds the stack: aligned to 16 bytes, all strings, pointers and auxiliary words in place at once, and
   * nothing outside touched. It fails only if part of the area is unmapped.
   */
  method SetupUserStack(mem: UserMemory, top: int, argv: seq<seq<byte>>, envp: seq<seq<byte>>, random: seq<byte>,
                        info: Info)
    returns (r: Result<int, ()>)
    requires mem.Valid() && top <= VA_LIMIT && |random| == 16
    modifies mem`m, mem.aspace.mem
    ensures mem.Valid()
    ensures SameOutside(old(mem.m), mem.m, FinalSp(top, argv, envp), top)
    ensures r.Ok? ==> Built(mem.m, r.value, top, argv, envp, random, info)
    ensures r.Err? ==> !old(Mapped(mem.m, FinalSp(top, argv, envp), top))
  {
    ghost var m0 := mem.m;
    ghost var end, sp0 := StringsEnd(top, argv, envp), FinalSp(top, argv, envp);
    var ok, argPtrs, envPtrs := PushContents(mem, top, argv, envp, random);
    OutsideLower(m0, mem.m, sp0, end, top);
    if !ok {
      NotMappedLonger(m0, m0, end, top, sp0, top);
      return Err(());
    }
    ghost var m1 := mem.m;
    RandomMapped(m1, RandomAddr(top), random);
    var sp;
    ok, sp := PushTable(mem, top, argv, envp, argPtrs, envPtrs, info);
    OutsideTwice(m0, m1, mem.m, sp0, end, top);
    if !ok {
      NotMappedLonger(m0, m1, sp0, end, sp0, top);
      return Err(());
    }
    ContentsStay(m1, mem.m, top, argv, envp, random);
    return Ok(sp);
  }

  /** The table of words, below the strings. */
  method PushTable(mem: UserMemory, top: int, argv: seq<seq<byte>>, envp: seq<seq<byte>>, argPtrs: seq<int>,
                   envPtrs: seq<int>, info: Info)
    returns (ok: bool, sp: int)
    requires mem.Valid() && top <= VA_LIMIT && RandomAddr(top) >= 0
    requires argPtrs == ArgPtrs(top, argv, envp) && Strings(mem.m, argPtrs, argv)
    requires envPtrs == EnvPtrs(top, envp) && Strings(mem.m, envPtrs, envp)
    modifies mem`m, mem.aspace.mem
    ensures mem.Valid()
    ensures SameOutside(old(mem.m), mem.m, FinalSp(top, argv, envp), StringsEnd(top, argv, envp))
    ensures ok ==> sp == FinalSp(top, argv, envp) && Table(mem.m, sp, Words(top, argv, envp, info))
    ensures !ok ==> !old(Mapped(mem.m, FinalSp(top, argv, envp), StringsEnd(top, argv, envp)))
  {
    ghost var m, end, sp0 := mem.m, StringsEnd(top, argv, envp), FinalSp(top, argv, envp);
    var tableEnd := TableEnd(top, argv, envp);
    var words := [|argv|] + argPtrs + [0] + envPtrs + [0] + Auxv(info, Down16(top) - 16);
    assert words == Words(top, argv, envp, info) && words + [] == words;
    NaturalWords(|argv|, argPtrs, envPtrs, Auxv(info, RandomAddr(top)));
    ok, sp := PushWords(mem, tableEnd, words, []);
    OutsideWider(m, mem.m, sp0, tableEnd, end);
    if !ok {
      NotMappedLonger(m, m, sp0, tableEnd, sp0, end);
    }
  }

  /** The strings and the random bytes are above the table. */
  lemma ContentsStay(m: Bytes, m': Bytes, top: int, argv: seq<seq<byte>>, envp: seq<seq<byte>>, random: seq<byte>)
    requires SameFrom(m, m', StringsEnd(top, argv, envp)) && BytesAt(m, RandomAddr(top), random)
    requires Strings(m, ArgPtrs(top, argv, envp), argv) && Strings(m, EnvPtrs(top, envp), envp)
    ensures Strings(m', ArgPtrs(top, argv, envp), argv) && Strings(m', EnvPtrs(top, envp), envp)
    ensures BytesAt(m', RandomAddr(top), random)
  {
    var end := StringsEnd(top, argv, envp);
    PtrsOrdered(RandomAddr(top), envp);
    PtrsOrdered(SpAfter(RandomAddr(top), envp), argv);
    StringsStay(m, m', end, ArgPtrs(top, argv, envp), argv);
    StringsStay(m, m', end, EnvPtrs(top, envp), envp);
    BytesStayAbove(m, m', end, RandomAddr(top), random);
  }

  lemma NaturalWords(argc: nat, argPtrs: seq<int>, envPtrs: seq<int>, aux: seq<int>)
    requires forall i :: 0 <= i < |argPtrs| ==> argPtrs[i] >= 0
    requires forall i :: 0 <= i < |envPtrs| ==> envPtrs[i] >= 0
    requires forall i :: 0 <= i < |aux| ==> aux[i] >= 0
    ensures var ws := [argc] + argPtrs + [0] + envPtrs + [0] + aux;
            forall i :: 0 <= i < |ws| ==> ws[i] >= 0
  {
  }

  lemma RandomMapped(m: Bytes, a: int, random: seq<byte>)
    requires BytesAt(m, a, random) && |random| > 0
    ensures a >= 0
  {
    assert a in m;
  }

  /** A word of the table reads back as the number that was pushed. */
  lemma WordReads(m: Bytes, a: nat, w: nat)
    requires WordAt(m, a, w) && w < U64_LIMIT
    ensures forall i: nat {:trigger a + i in m} :: i < 8 ==> a + i in m
    ensures FromLe([m[a], m[a + 1], m[a + 2], m[a + 3], m[a + 4], m[a + 5], m[a + 6], m[a + 7]]) == w
  {
    var b := ToLe(w, 8);
    assert forall x: int :: a <= x < a + 8 ==> x in m && m[x] == b[x - a];
    assert b == [b[0], b[1], b[2], b[3], b[4], b[5], b[6], b[7]];
    U64RoundTrip(w);
  }
}

/** Reference accounting of shared memory segments (kernel/src/mm/shm.rs). */
module Shm {
  import opened Common
  import opened Errno

  datatype Segment = Segment(key: int, size: nat, attachCount: nat, marked: bool)

  /** One attachment of a process. */
  datatype Record = Record(addr: nat, id: nat, size: nat)

  type Attachments = map<nat, seq<Record>>

  // How many records refer to a segment.

  ghost function IsFor(r: Record, id: nat): nat {
    if r.id == id then 1 else 0
  }

  ghost function Count(q: seq<Record>, id: nat): nat {
    if |q| == 0 then 0 else IsFor(q[0], id) + Count(q[1..], id)
  }

  ghost function Total(attach: Attachments, pids: set<nat>, id: nat): nat
    requires pids <= attach.Keys
  {
    if pids == {} then 0 else
      var pid :| pid in pids;
      Count(attach[pid], id) + Total(attach, pids - {pid}, id)
  }

  /** The records of all processes for one segment. */
  ghost function Records(attach: Attachments, id: nat): nat {
    Total(attach, attach.Keys, id)
  }

  lemma {:induction false} TotalSplit(attach: Attachments, pids: set<nat>, pid: nat, id: nat)
    requires pids <= attach.Keys && pid in pids
    ensures Total(attach, pids, id) == Count(attach[pid], id) + Total(attach, pids - {pid}, id)
    decreases |pids|
  {
    var first :| first in pids &&
      Total(attach, pids, id) == Count(attach[first], id) + Total(attach, pids - {first}, id);
    if first != pid {
      TotalSplit(attach, pids - {first}, pid, id);
      TotalSplit(attach, pids - {pid}, first, id);
      assert pids - {first} - {pid} == pids - {pid} - {first};
    }
  }

  lemma {:induction false} TotalSame(attach: Attachments, attach': Attachments, pids: set<nat>, id: nat)
    requires pids <= attach.Keys && pids <= attach'.Keys && forall pid :: pid in pids ==> attach[pid] == attach'[pid]
    ensures Total(attach, pids, id) == Total(attach', pids, id)
    decreases |pids|
  {
    if pids != {} {
      var pid :| pid in pids;
      TotalSplit(attach, pids, pid, id);
      TotalSplit(attach', pids, pid, id);
      TotalSame(attach, attach', pids - {pid}, id);
    }
  }

  function Of(attach: Attachments, pid: nat): seq<Record> {
    if pid in attach then attach[pid] else []
  }

  /** Replacing the records of one process changes the totals by the difference. */
  lemma RecordsUpdate(attach: Attachments, pid: nat, q: seq<Record>, id: nat)
    ensures Records(attach[pid := q], id) + Count(Of(attach, pid), id) == Records(attach, id) + Count(q, id)
  {
    var attach' := attach[pid := q];
    var others := attach.Keys - {pid};
    assert attach'.Keys - {pid} == others;
    TotalSplit(attach', attach'.Keys, pid, id);
    TotalSame(attach, attach', others, id);
    if pid in attach {
      TotalSplit(attach, attach.Keys, pid, id);
    } else {
      assert others == attach.Keys;
    }
  }

  lemma RecordsRemove(attach: Attachments, pid: nat, id: nat)
    ensures Records(attach - {pid}, id) + Count(Of(attach, pid), id) == Records(attach, id)
  {
    var attach' := attach - {pid};
    TotalSame(attach, attach', attach'.Keys, id);
    assert attach'.Keys == attach.Keys - {pid};
    if pid in attach {
      TotalSplit(attach, attach.Keys, pid, id);
    } else {
      assert attach.Keys - {pid} == attach.Keys;
    }
  }

  lemma {:induction false} CountConcat(a: seq<Record>, b: seq<Record>, id: nat)
    ensures Count(a + b, id) == Count(a, id) + Count(b, id)
  {
    if a == [] {
      assert a + b == b;
    } else {
      CountConcat(a[1..], b, id);
      assert (a + b)[1..] == a[1..] + b;
    }
  }

  lemma CountOne(r: Record, id: nat)
    ensures Count([r], id) == IsFor(r, id)
  {
  }

  lemma CountWithout(q: seq<Record>, i: nat, id: nat)
    requires i < |q|
    ensures Count(q, id) == Count(q[..i] + q[i + 1..], id) + IsFor(q[i], id)
  {
    CountConcat(q[..i], q[i + 1..], id);
    CountConcat(q[..i], q[i..], id);
    assert q == q[..i] + q[i..] && q[i..] == [q[i]] + q[i + 1..];
    CountConcat([q[i]], q[i + 1..], id);
    CountOne(q[i], id);
  }

  // What every call keeps.

  /** A segment's count is the number of records for it, plus those in `owed` that are about to be released. */
  ghost predicate AccountsAt(segs: map<nat, Segment>, attach: Attachments, owed: seq<Record>, id: nat) {
    (if id in segs then segs[id].attachCount else 0) == Records(attach, id) + Count(owed, id)
  }

  ghost predicate Accounts(segs: map<nat, Segment>, attach: Attachments, owed: seq<Record>) {
    forall id: nat {:trigger AccountsAt(segs, attach, owed, id)} :: AccountsAt(segs, attach, owed, id)
  }

  /** A segment marked for deletion exists only as long as it is attached. */
  ghost predicate Reaped(segs: map<nat, Segment>) {
    forall id {:trigger segs[id]} :: id in segs && segs[id].marked ==> segs[id].attachCount > 0
  }

  /** At most one segment answers to a key. */
  ghost predicate UniqueKeys(segs: map<nat, Segment>) {
    forall i, j {:trigger segs[i], segs[j]} ::
      i in segs && j in segs && segs[i].key == segs[j].key != 0 && !segs[i].marked && !segs[j].marked ==> i == j
  }

  /** Some segment answers to the key. */
  predicate Answers(segs: map<nat, Segment>, key: int) {
    exists id :: id in segs && segs[id].key == key && !segs[id].marked
  }

  function Reap(segs: map<nat, Segment>): map<nat, Segment> {
    map id | id in segs && !(segs[id].marked && segs[id].attachCount == 0) :: segs[id]
  }

  lemma ReapKeeps(segs: map<nat, Segment>, attach: Attachments)
    requires Accounts(segs, attach, [])
    ensures Accounts(Reap(segs), attach, []) && Reaped(Reap(segs))
  {
    forall id: nat ensures AccountsAt(Reap(segs), attach, [], id) {
      assert AccountsAt(segs, attach, [], id);
    }
  }

  /** The saturating decrement has something to decrement. */
  lemma OwedIsCounted(segs: map<nat, Segment>, attach: Attachments, owed: seq<Record>)
    requires Accounts(segs, attach, owed) && |owed| > 0
    ensures owed[0].id in segs && segs[owed[0].id].attachCount > 0
    ensures var id := owed[0].id;
            Accounts(segs[id := segs[id].(attachCount := segs[id].attachCount - 1)], attach, owed[1..])
  {
    var id := owed[0].id;
    assert AccountsAt(segs, attach, owed, id);
    var segs' := segs[id := segs[id].(attachCount := segs[id].attachCount - 1)];
    forall j: nat ensures AccountsAt(segs', attach, owed[1..], j) {
      assert AccountsAt(segs, attach, owed, j);
    }
  }

  /**
   * Segments may lose attachments but nothing else, and one that goes away was marked for deletion and has no
   * attachment left.
   */
  ghost predicate ReleasedAt(segs: map<nat, Segment>, segs': map<nat, Segment>, attach: Attachments, id: nat) {
    && (id in segs' ==> id in segs && segs'[id] == segs[id].(attachCount := Records(attach, id)))
    && (id in segs && id !in segs' ==> segs[id].marked && Records(attach, id) == 0)
  }

  ghost predicate Released(segs: map<nat, Segment>, segs': map<nat, Segment>, attach: Attachments) {
    forall id: nat {:trigger ReleasedAt(segs, segs', attach, id)} :: ReleasedAt(segs, segs', attach, id)
  }

  lemma ReapReleases(segs: map<nat, Segment>, counted: map<nat, Segment>, attach: Attachments)
    requires counted.Keys == segs.Keys && Accounts(counted, attach, [])
    requires forall id: nat {:trigger counted[id]} :: id in counted ==>
               counted[id] == segs[id].(attachCount := counted[id].attachCount)
    ensures Released(segs, Reap(counted), attach)
  {
    var segs' := Reap(counted);
    forall id: nat ensures ReleasedAt(segs, segs', attach, id) {
      assert AccountsAt(counted, attach, [], id);
    }
  }

  class ShmTable {
    var segs: map<nat, Segment>
    var attach: Attachments
    var nextId: nat

    ghost predicate Valid()
      reads this
    {
      && Accounts(segs, attach, []) && Reaped(segs) && UniqueKeys(segs)
      && (forall id {:trigger segs[id]} :: id in segs ==> id < nextId && segs[id].size > 0)
    }

    constructor ()
      ensures Valid() && segs == map[] && attach == map[]
    {
      segs, attach, nextId := map[], map[], 1;
    }

    /** Releases records that were taken off the table, then reaps. The count never drops below zero. */
    method Release(owed: seq<Record>)
      requires Accounts(segs, attach, owed) && UniqueKeys(segs)
      requires forall id {:trigger segs[id]} :: id in segs ==> id < nextId && segs[id].size > 0
      modifies `segs
      ensures Valid() && Released(old(segs), segs, attach)
    {
      for k := 0 to |owed|
        invariant Accounts(segs, attach, owed[k..])
        invariant segs.Keys == old(segs).Keys
        invariant forall id: nat {:trigger segs[id]} :: id in segs ==>
                    segs[id] == old(segs)[id].(attachCount := segs[id].attachCount)
      {
        OwedIsCounted(segs, attach, owed[k..]);
        var id := owed[k].id;
        assert owed[k..][1..] == owed[k + 1..] && owed[k..][0] == owed[k];
        segs := segs[id := segs[id].(attachCount := segs[id].attachCount - 1)];
      }
      assert owed[|owed|..] == [];
      ReapKeeps(segs, attach);
      ReapReleases(old(segs), segs, attach);
      segs := Reap(segs);
    }

    /** The id of the unmarked segment with this key, if any. */
    method FindKey(key: int) returns (r: Option<nat>)
      ensures r.Some? ==> r.value in segs && segs[r.value].key == key && !segs[r.value].marked
      ensures r.Some? <==> Answers(segs, key)
    {
      if id :| id in segs && segs[id].key == key && !segs[id].marked {
        return Some(id);
      }
      return None;
    }

    method DoShmget(key: int, size: nat, creat: bool, excl: bool) returns (r: Result<nat, nat>)
      requires Valid()
      modifies `segs, `nextId
      ensures Valid()
      ensures r.Ok? ==> r.value in segs && segs[r.value].key == key && !segs[r.value].marked
      ensures r.Ok? && r.value !in old(segs) ==>
                segs == old(segs)[r.value := Segment(key, size, 0, false)] && (key == 0 || creat)
      ensures r.Err? || r.value in old(segs) ==> segs == old(segs)
      ensures key == 0 && r.Ok? ==> r.value !in old(segs)
      ensures var found := key != 0 && Answers(old(segs), key);
              && (r == Err(EINVAL) <==> size == 0)
              && (r == Err(EEXIST) <==> size > 0 && found && creat && excl)
              && (r == Err(ENOENT) <==> size > 0 && !found && key != 0 && !creat)
              && (r.Ok? && found ==> r.value in old(segs))
      ensures r.Err? ==> r.error == EINVAL || r.error == EEXIST || r.error == ENOENT
    {
      if size == 0 {
        return Err(EINVAL);
      }
      if key != 0 {
        var existing := FindKey(key);
        if existing.Some? {
          return if creat && excl then Err(EEXIST) else Ok(existing.value);
        }
      }
      if key == 0 || creat {
        var id := nextId;
        nextId := nextId + 1;
        NewSegment(segs, attach, id, Segment(key, size, 0, false));
        segs := segs[id := Segment(key, size, 0, false)];
        return Ok(id);
      }
      return Err(ENOENT);
    }

    /** The bookkeeping of `do_shmat`: a live segment gets one more record and counts one more. */
    method Attach(pid: nat, id: nat, addr: nat) returns (r: Result<nat, nat>)
      requires Valid()
      modifies `segs, `attach
      ensures Valid()
      ensures r == if id in old(segs) && !old(segs)[id].marked then Ok(addr) else Err(EINVAL)
      ensures r.Err? ==> segs == old(segs) && attach == old(attach)
      ensures r.Ok? ==> attach == old(attach)[pid := Of(old(attach), pid) + [Record(addr, id, old(segs)[id].size)]]
      ensures r.Ok? ==> segs == old(segs)[id := old(segs)[id].(attachCount := old(segs)[id].attachCount + 1)]
    {
      if id !in segs || segs[id].marked {
        return Err(EINVAL);
      }
      var rec := Record(addr, id, segs[id].size);
      AttachKeeps(segs, attach, pid, rec);
      segs := segs[id := segs[id].(attachCount := segs[id].attachCount + 1)];
      attach := attach[pid := Of(attach, pid) + [rec]];
      return Ok(addr);
    }

    /** The bookkeeping of `do_shmdt`: the first record at the address goes. */
    method Detach(pid: nat, addr: nat) returns (r: Result<Record, nat>)
      requires Valid()
      modifies `segs, `attach
      ensures Valid() && Released(old(segs), segs, attach)
      ensures r.Ok? <==> addr != 0 && addr % 4096 == 0 && HasAddr(Of(old(attach), pid), addr)
      ensures r.Err? ==> r == Err(EINVAL) && segs == old(segs) && attach == old(attach)
      ensures r.Ok? ==> TookFirst(Of(old(attach), pid), Of(attach, pid), addr, r.value)
      ensures forall p: nat :: p != pid ==> Of(attach, p) == Of(old(attach), p)
    {
      if addr == 0 || addr % 4096 != 0 || pid !in attach {
        UnchangedReleases(segs, attach);
        return Err(EINVAL);
      }
      var q := attach[pid];
      var idx := Position(q, addr);
      if idx.None? {
        UnchangedReleases(segs, attach);
        return Err(EINVAL);
      }
      var i := idx.value;
      var rest := q[..i] + q[i + 1..];
      DetachKeeps(segs, attach, pid, rest, [q[i]], i);
      attach := if rest == [] then attach - {pid} else attach[pid := rest];
      Release([q[i]]);
      assert FirstAt(Of(old(attach), pid), i, addr);
      assert Of(old(attach), pid)[i].addr == addr;
      return Ok(q[i]);
    }

    /** Process exit: all records of the process go. */
    method CleanupProcessAttachments(pid: nat)
      requires Valid()
      modifies `segs, `attach
      ensures Valid() && attach == old(attach) - {pid} && Released(old(segs), segs, attach)
    {
      var mappings := Of(attach, pid);
      ExitKeeps(segs, attach, pid);
      attach := attach - {pid};
      if mappings == [] {
        UnchangedReleases(segs, attach);
        return;
      }
      Release(mappings);
    }

    /** `munmap`: drops the records that lie wholly in the range. */
    method DetachMappingsInRange(pid: nat, addr: nat, len: nat)
      requires Valid()
      modifies `segs, `attach
      ensures Valid() && Released(old(segs), segs, attach)
      ensures forall p: nat :: p != pid ==> Of(attach, p) == Of(old(attach), p)
      ensures Of(attach, pid) == if len > 0 then Kept(Of(old(attach), pid), addr, addr + len) else Of(old(attach), pid)
    {
      if len == 0 || pid !in attach {
        UnchangedReleases(segs, attach);
        return;
      }
      var removed, kept := SplitRange(attach[pid], addr, addr + len);
      TakeKeeps(segs, attach, pid, kept, removed);
      attach := if kept == [] then attach - {pid} else attach[pid := kept];
      if removed == [] {
        UnchangedReleases(segs, attach);
        return;
      }
      Release(removed);
    }

    method DoShmctlRmid(id: nat) returns (r: Result<nat, nat>)
      requires Valid()
      modifies `segs
      ensures Valid() && r == if id in old(segs) then Ok(0) else Err(EINVAL)
      ensures id in segs ==> id in old(segs) && segs[id] == old(segs)[id].(marked := true) && Records(attach, id) > 0
      ensures forall j: nat {:trigger j in segs} :: j != id ==> (j in segs <==> j in old(segs))
      ensures forall j: nat {:trigger segs[j]} :: j != id && j in segs ==> segs[j] == old(segs)[j]
    {
      if id !in segs {
        return Err(EINVAL);
      }
      MarkKeeps(segs, attach, id);
      segs := segs[id := segs[id].(marked := true)];
      ReapKeeps(segs, attach);
      segs := Reap(segs);
      assert AccountsAt(segs, attach, [], id);
      return Ok(0);
    }
  }

  predicate Inside(r: Record, start: nat, end: nat) {
    start <= r.addr && r.addr + r.size <= end
  }

  /** The records that do not lie wholly in the range, in order. */
  function Kept(q: seq<Record>, start: nat, end: nat): seq<Record> {
    if |q| == 0 then []
    else
      var last := q[|q| - 1];
      Kept(q[..|q| - 1], start, end) + if Inside(last, start, end) then [] else [last]
  }

  lemma {:induction false} KeptMembers(q: seq<Record>, start: nat, end: nat)
    ensures forall r :: r in Kept(q, start, end) <==> r in q && !Inside(r, start, end)
  {
    if |q| > 0 {
      KeptMembers(q[..|q| - 1], start, end);
      assert q == q[..|q| - 1] + [q[|q| - 1]];
    }
  }

  predicate HasAddr(q: seq<Record>, addr: nat) {
    exists i :: 0 <= i < |q| && q[i].addr == addr
  }

  /** `q'` is `q` without `rec`, its first record at `addr`. */
  ghost predicate TookFirst(q: seq<Record>, q': seq<Record>, addr: nat, rec: Record) {
    exists i: nat :: FirstAt(q, i, addr) && q[i] == rec && q' == q[..i] + q[i + 1..]
  }

  lemma UnchangedReleases(segs: map<nat, Segment>, attach: Attachments)
    requires Accounts(segs, attach, [])
    ensures Released(segs, segs, attach)
  {
    forall id: nat ensures ReleasedAt(segs, segs, attach, id) {
      assert AccountsAt(segs, attach, [], id);
    }
  }

  method SplitRange(q: seq<Record>, start: nat, end: nat) returns (removed: seq<Record>, kept: seq<Record>)
    ensures forall j: nat :: Count(q, j) == Count(kept, j) + Count(removed, j)
    ensures kept == Kept(q, start, end)
  {
    removed, kept := [], [];
    for i := 0 to |q|
      invariant forall j: nat :: Count(q[..i], j) == Count(kept, j) + Count(removed, j)
      invariant kept == Kept(q[..i], start, end)
    {
      assert q[..i + 1] == q[..i] + [q[i]] && q[..i + 1][..i] == q[..i];
      forall j: nat ensures Count(q[..i + 1], j) == Count(q[..i], j) + IsFor(q[i], j) {
        CountConcat(q[..i], [q[i]], j);
        CountOne(q[i], j);
      }
      forall j: nat
        ensures Count(kept + [q[i]], j) == Count(kept, j) + IsFor(q[i], j)
        ensures Count(removed + [q[i]], j) == Count(removed, j) + IsFor(q[i], j)
      {
        CountConcat(kept, [q[i]], j);
        CountConcat(removed, [q[i]], j);
        CountOne(q[i], j);
      }
      if Inside(q[i], start, end) {
        removed := removed + [q[i]];
      } else {
        kept := kept + [q[i]];
      }
    }
    assert q[..|q|] == q;
  }

  ghost predicate FirstAt(q: seq<Record>, i: nat, addr: nat) {
    i < |q| && q[i].addr == addr && forall j :: 0 <= j < i ==> q[j].addr != addr
  }

  method Position(q: seq<Record>, addr: nat) returns (r: Option<nat>)
    ensures r.Some? ==> FirstAt(q, r.value, addr)
    ensures r.None? ==> forall j :: 0 <= j < |q| ==> q[j].addr != addr
  {
    for i := 0 to |q|
      invariant forall j :: 0 <= j < i ==> q[j].addr != addr
    {
      if q[i].addr == addr {
        return Some(i);
      }
    }
    return None;
  }

  lemma NewSegment(segs: map<nat, Segment>, attach: Attachments, id: nat, s: Segment)
    requires Accounts(segs, attach, []) && id !in segs && s.attachCount == 0
    ensures Accounts(segs[id := s], attach, [])
  {
    var segs' := segs[id := s];
    forall j: nat ensures AccountsAt(segs', attach, [], j) {
      assert AccountsAt(segs, attach, [], j);
    }
  }

  lemma MarkKeeps(segs: map<nat, Segment>, attach: Attachments, id: nat)
    requires Accounts(segs, attach, []) && id in segs
    ensures Accounts(segs[id := segs[id].(marked := true)], attach, [])
  {
    var segs' := segs[id := segs[id].(marked := true)];
    forall j: nat ensures AccountsAt(segs', attach, [], j) {
      assert AccountsAt(segs, attach, [], j);
    }
  }

  lemma AttachKeeps(segs: map<nat, Segment>, attach: Attachments, pid: nat, rec: Record)
    requires Accounts(segs, attach, []) && rec.id in segs
    ensures Accounts(segs[rec.id := segs[rec.id].(attachCount := segs[rec.id].attachCount + 1)],
                     attach[pid := Of(attach, pid) + [rec]], [])
  {
    var segs' := segs[rec.id := segs[rec.id].(attachCount := segs[rec.id].attachCount + 1)];
    var attach' := attach[pid := Of(attach, pid) + [rec]];
    forall j: nat ensures AccountsAt(segs', attach', [], j) {
      assert AccountsAt(segs, attach, [], j);
      RecordsUpdate(attach, pid, Of(attach, pid) + [rec], j);
      CountConcat(Of(attach, pid), [rec], j);
      CountOne(rec, j);
    }
  }

  /** Taking records off a process's list makes them owed. */
  lemma TakeKeeps(segs: map<nat, Segment>, attach: Attachments, pid: nat, rest: seq<Record>, owed: seq<Record>)
    requires Accounts(segs, attach, []) && forall j: nat :: Count(Of(attach, pid), j) == Count(rest, j) + Count(owed, j)
    ensures Accounts(segs, attach[pid := rest], owed)
    ensures rest == [] ==> Accounts(segs, attach - {pid}, owed)
  {
    var changed, removed := attach[pid := rest], attach - {pid};
    forall j: nat ensures AccountsAt(segs, changed, owed, j) {
      assert AccountsAt(segs, attach, [], j);
      RecordsUpdate(attach, pid, rest, j);
    }
    if rest == [] {
      forall j: nat ensures AccountsAt(segs, removed, owed, j) {
        assert AccountsAt(segs, attach, [], j);
        RecordsRemove(attach, pid, j);
      }
    }
  }

  lemma DetachKeeps(segs: map<nat, Segment>, attach: Attachments, pid: nat, rest: seq<Record>, owed: seq<Record>,
                    i: nat)
    requires Accounts(segs, attach, []) && pid in attach && i < |attach[pid]|
    requires rest == attach[pid][..i] + attach[pid][i + 1..] && owed == [attach[pid][i]]
    ensures Accounts(segs, attach[pid := rest], owed)
    ensures rest == [] ==> Accounts(segs, attach - {pid}, owed)
  {
    forall j: nat ensures Count(Of(attach, pid), j) == Count(rest, j) + Count(owed, j) {
      CountWithout(attach[pid], i, j);
      CountOne(attach[pid][i], j);
    }
    TakeKeeps(segs, attach, pid, rest, owed);
  }

  lemma ExitKeeps(segs: map<nat, Segment>, attach: Attachments, pid: nat)
    requires Accounts(segs, attach, [])
    ensures Accounts(segs, attach - {pid}, Of(attach, pid))
  {
    TakeKeeps(segs, attach, pid, [], Of(attach, pid));
  }
}

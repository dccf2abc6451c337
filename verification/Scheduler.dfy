/** The multi-CPU scheduler (kernel/src/sched/scheduler.rs) and its sleep queue (kernel/src/sched/wait.rs). */
module Scheduler {
  import opened Common

  datatype ThreadState = Ready | Running | Blocked | Dead

  datatype Thread = Thread(pid: nat, state: ThreadState, vruntime: nat)

  const MAX_VRUNTIME := U64_MAX

  const IDLE := Thread(0, Running, MAX_VRUNTIME)

  function Charge(vruntime: nat): nat {
    if vruntime >= MAX_VRUNTIME then vruntime else vruntime + 1
  }

  // Choosing a thread.

  /** `i` is the first of the Ready threads with the least virtual runtime. */
  ghost predicate IsFirstMin(q: seq<Thread>, i: nat) {
    && i < |q| && q[i].state == Ready
    && (forall j :: 0 <= j < |q| && q[j].state == Ready ==> q[i].vruntime <= q[j].vruntime)
    && (forall j :: 0 <= j < i && q[j].state == Ready ==> q[i].vruntime < q[j].vruntime)
  }

  predicate NoneReady(q: seq<Thread>) {
    forall i :: 0 <= i < |q| ==> q[i].state != Ready
  }

  function ReadyCount(q: seq<Thread>): nat {
    if |q| == 0 then 0 else ReadyCount(q[..|q| - 1]) + if q[|q| - 1].state == Ready then 1 else 0
  }

  lemma {:induction false} ReadyCountZero(q: seq<Thread>)
    ensures ReadyCount(q) == 0 <==> NoneReady(q)
  {
    if |q| > 0 {
      ReadyCountZero(q[..|q| - 1]);
      assert forall i :: 0 <= i < |q| - 1 ==> q[..|q| - 1][i] == q[i];
      assert q[|q| - 1].state != Ready && NoneReady(q[..|q| - 1]) ==> NoneReady(q);
    }
  }

  function Without(q: seq<Thread>, i: nat): seq<Thread>
    requires i < |q|
  {
    q[..i] + q[i + 1..]
  }

  lemma {:induction false} ReadyCountWithout(q: seq<Thread>, i: nat)
    requires i < |q|
    ensures ReadyCount(q) == ReadyCount(Without(q, i)) + if q[i].state == Ready then 1 else 0
  {
    var front, rest := q[..|q| - 1], Without(q, i);
    if i == |q| - 1 {
      assert rest == front;
    } else {
      ReadyCountWithout(front, i);
      assert rest[..|rest| - 1] == Without(front, i) && rest[|rest| - 1] == q[|q| - 1];
    }
  }

  /** The Ready thread to run next from a local queue. */
  method PickLocal(q: seq<Thread>) returns (r: Option<nat>)
    ensures r.Some? ==> IsFirstMin(q, r.value)
    ensures r.None? ==> NoneReady(q)
  {
    r := None;
    for i := 0 to |q|
      invariant r.None? ==> forall j :: 0 <= j < i ==> q[j].state != Ready
      invariant r.Some? ==> r.value < i && IsFirstMin(q[..i], r.value)
    {
      assert q[..i + 1] == q[..i] + [q[i]];
      if q[i].state == Ready && (r.None? || q[i].vruntime < q[r.value].vruntime) {
        r := Some(i);
      }
    }
    assert q[..|q|] == q;
  }

  /** `i` is the last Ready thread. */
  ghost predicate IsLastReady(q: seq<Thread>, i: nat) {
    && i < |q| && q[i].state == Ready
    && forall j :: i < j < |q| ==> q[j].state != Ready
  }

  method PickLast(q: seq<Thread>) returns (r: Option<nat>)
    ensures r.Some? ==> IsLastReady(q, r.value)
    ensures r.None? ==> NoneReady(q)
  {
    for i := |q| downto 0
      invariant forall j :: i <= j < |q| ==> q[j].state != Ready
    {
      if q[i].state == Ready {
        return Some(i);
      }
    }
    return None;
  }

  method CountReady(q: seq<Thread>) returns (n: nat)
    ensures n == ReadyCount(q)
  {
    n := 0;
    for i := 0 to |q|
      invariant n == ReadyCount(q[..i])
    {
      assert q[..i + 1][..i] == q[..i];
      if q[i].state == Ready {
        n := n + 1;
      }
    }
    assert q[..|q|] == q;
  }

  /** `v` is the last of the CPUs other than `cpu` with the most Ready threads. */
  ghost predicate IsBusiest(queues: seq<seq<Thread>>, cpu: nat, v: nat) {
    && v < |queues| && v != cpu
    && (forall c :: 0 <= c < |queues| && c != cpu ==> ReadyCount(queues[c]) <= ReadyCount(queues[v]))
    && (forall c :: v < c < |queues| && c != cpu ==> ReadyCount(queues[c]) < ReadyCount(queues[v]))
  }

  method PickVictim(queues: seq<seq<Thread>>, cpu: nat) returns (r: Option<nat>)
    ensures r.Some? ==> IsBusiest(queues, cpu, r.value)
    ensures r.None? ==> |queues| == 0 || (|queues| == 1 && cpu == 0)
  {
    r := None;
    var best: nat := 0;
    for c := 0 to |queues|
      invariant r.None? ==> c == 0 || (c == 1 && cpu == 0)
      invariant r.Some? ==> r.value < c && r.value != cpu && best == ReadyCount(queues[r.value])
      invariant r.Some? ==> forall d :: 0 <= d < c && d != cpu ==> ReadyCount(queues[d]) <= best
      invariant r.Some? ==> forall d :: r.value < d < c && d != cpu ==> ReadyCount(queues[d]) < best
    {
      if c != cpu {
        var n := CountReady(queues[c]);
        if r.None? || n >= best {
          r, best := Some(c), n;
        }
      }
    }
  }

  /** `c` is the first of the CPUs with the fewest Ready threads. */
  ghost predicate IsLeastLoaded(queues: seq<seq<Thread>>, c: nat) {
    && c < |queues|
    && (forall d :: 0 <= d < |queues| ==> ReadyCount(queues[c]) <= ReadyCount(queues[d]))
    && (forall d :: 0 <= d < c ==> ReadyCount(queues[c]) < ReadyCount(queues[d]))
  }

  method LeastLoadedCpu(queues: seq<seq<Thread>>) returns (r: nat)
    ensures |queues| > 0 ==> IsLeastLoaded(queues, r)
    ensures |queues| == 0 ==> r == 0
  {
    r := 0;
    var best: nat := 0;
    for c := 0 to |queues|
      invariant c == 0 ==> r == 0
      invariant c > 0 ==> r < c && best == ReadyCount(queues[r])
      invariant c > 0 ==> forall d :: 0 <= d < c ==> best <= ReadyCount(queues[d])
      invariant c > 0 ==> forall d :: 0 <= d < r ==> best < ReadyCount(queues[d])
    {
      var n := CountReady(queues[c]);
      if c == 0 || n < best {
        r, best := c, n;
      }
    }
  }

  // The state and the threads in it.

  /**
   * The scheduler's data: one queue and one running thread per CPU, the sleepers by deadline, clock and pid counter.
   * `waking` holds the batches of pids that timer ticks have taken off the sleep queue but not yet woken.
   */
  datatype Sched = Sched(queues: seq<seq<Thread>>, current: seq<Option<Thread>>, sleepers: map<nat, seq<nat>>,
                         waking: seq<set<nat>>, tick: nat, nextPid: nat)

  ghost function IsPid(t: Thread, pid: nat): nat {
    if t.pid == pid then 1 else 0
  }

  /** How many threads of a queue carry a pid. */
  ghost function Count(q: seq<Thread>, pid: nat): nat {
    if |q| == 0 then 0 else Count(q[..|q| - 1], pid) + IsPid(q[|q| - 1], pid)
  }

  ghost function CurrentCount(t: Option<Thread>, pid: nat): nat {
    if t.None? then 0 else IsPid(t.value, pid)
  }

  ghost function Total(queues: seq<seq<Thread>>, current: seq<Option<Thread>>, n: nat, pid: nat): nat
    requires n <= |queues| == |current|
  {
    if n == 0 then 0
    else Total(queues, current, n - 1, pid) + Count(queues[n - 1], pid) + CurrentCount(current[n - 1], pid)
  }

  /** How many threads in the system, running or queued, carry a pid. */
  ghost function Occurrences(s: Sched, pid: nat): nat
    requires |s.queues| == |s.current|
  {
    Total(s.queues, s.current, |s.queues|, pid)
  }

  lemma CountAppend(q: seq<Thread>, t: Thread, pid: nat)
    ensures Count(q + [t], pid) == Count(q, pid) + IsPid(t, pid)
  {
    assert (q + [t])[..|q|] == q;
  }

  lemma {:induction false} CountWithout(q: seq<Thread>, i: nat, pid: nat)
    requires i < |q|
    ensures Count(q, pid) == Count(Without(q, i), pid) + IsPid(q[i], pid)
  {
    var front := q[..|q| - 1];
    if i == |q| - 1 {
      assert Without(q, i) == front;
    } else {
      CountWithout(front, i, pid);
      assert Without(q, i)[..|q| - 2] == Without(front, i);
    }
  }

  lemma {:induction false} CountSame(q: seq<Thread>, q': seq<Thread>, pid: nat)
    requires |q| == |q'| && forall i :: 0 <= i < |q| ==> q[i].pid == q'[i].pid
    ensures Count(q, pid) == Count(q', pid)
  {
    if |q| > 0 {
      CountSame(q[..|q| - 1], q'[..|q| - 1], pid);
    }
  }

  lemma {:induction false} TotalUpdate(queues: seq<seq<Thread>>, current: seq<Option<Thread>>, n: nat, c: nat,
                                       q: seq<Thread>, t: Option<Thread>, pid: nat)
    requires n <= |queues| == |current| && c < |queues|
    ensures Total(queues[c := q], current[c := t], n, pid) == Total(queues, current, n, pid)
              + if c >= n then 0
                else Count(q, pid) + CurrentCount(t, pid) - Count(queues[c], pid) - CurrentCount(current[c], pid)
  {
    if n > 0 {
      TotalUpdate(queues, current, n - 1, c, q, t, pid);
    }
  }

  lemma {:induction false} TotalSame(queues: seq<seq<Thread>>, queues': seq<seq<Thread>>,
                                     current: seq<Option<Thread>>, current': seq<Option<Thread>>, n: nat, pid: nat)
    requires n <= |queues| == |current| == |queues'| == |current'|
    requires forall c :: 0 <= c < n ==> Count(queues[c], pid) == Count(queues'[c], pid)
    requires forall c :: 0 <= c < n ==> CurrentCount(current[c], pid) == CurrentCount(current'[c], pid)
    ensures Total(queues, current, n, pid) == Total(queues', current', n, pid)
  {
    if n > 0 {
      TotalSame(queues, queues', current, current', n - 1, pid);
    }
  }

  // What every run keeps.

  /** Every CPU runs a thread. */
  ghost predicate Occupied(current: seq<Option<Thread>>) {
    forall c {:trigger current[c]} :: 0 <= c < |current| ==> current[c].Some?
  }

  /** Queues hold neither idle nor Running threads. */
  predicate Queueable(t: Thread) {
    t.pid != 0 && t.state != Running
  }

  ghost predicate Waiting(queues: seq<seq<Thread>>) {
    forall c, i {:trigger queues[c][i]} :: 0 <= c < |queues| && 0 <= i < |queues[c]| ==> Queueable(queues[c][i])
  }

  /** A pid names at most one thread, and none before it is handed out. */
  ghost predicate Unique(s: Sched)
    requires |s.queues| == |s.current|
  {
    forall pid: nat {:trigger Occurrences(s, pid)} :: pid > 0 ==>
      Occurrences(s, pid) <= if pid < s.nextPid then 1 else 0
  }

  ghost predicate Inv(s: Sched) {
    |s.queues| == |s.current| && s.nextPid > 0 && Occupied(s.current) && Waiting(s.queues) && Unique(s)
  }

  /** Where `schedule` finds the next thread. */
  datatype Choice = Nothing | Pick(from: nat, index: nat)

  ghost predicate Chosen(queues: seq<seq<Thread>>, cpu: nat, ch: Choice)
    requires cpu < |queues|
  {
    match ch
    case Nothing => NoneReady(queues[cpu]) && forall c :: 0 <= c < |queues| && c != cpu ==> ReadyCount(queues[c]) <= 1
    case Pick(from, i) =>
      if from == cpu then IsFirstMin(queues[cpu], i)
      else
        && NoneReady(queues[cpu]) && IsBusiest(queues, cpu, from)
        && ReadyCount(queues[from]) > 1 && IsLastReady(queues[from], i)
  }

  function Charged(t: Thread): Thread {
    if t.pid == 0 then t else t.(vruntime := Charge(t.vruntime))
  }

  /** What becomes of the thread that ran: Running is requeued as Ready, Blocked as it is, the rest is dropped. */
  function Requeue(q: seq<Thread>, t: Thread): seq<Thread> {
    if t.pid == 0 then q
    else if t.state == Running then q + [t.(state := Ready)]
    else if t.state == Blocked then q + [t]
    else q
  }

  /** The state after `schedule` on `cpu`, given where the next thread came from. */
  function Switch(s: Sched, cpu: nat, ch: Choice): Sched
    requires cpu < |s.queues| == |s.current| && s.current[cpu].Some?
    requires ch.Pick? ==> ch.from < |s.queues| && ch.index < |s.queues[ch.from]|
  {
    var t := Charged(s.current[cpu].value);
    match ch
    case Nothing => s.(current := s.current[cpu := Some(t)])
    case Pick(from, i) =>
      var queues := s.queues[from := Without(s.queues[from], i)];
      s.(queues := queues[cpu := Requeue(queues[cpu], t)],
         current := s.current[cpu := Some(s.queues[from][i].(state := Running))])
  }

  /** `schedule` requeues a thread in this state. */
  predicate Requeued(state: ThreadState) {
    state == Running || state == Blocked
  }

  /** The thread a switch drops, if any: one that is Dead, or was made Ready in place. Idle threads do not count. */
  ghost function Dropped(s: Sched, cpu: nat, ch: Choice): Option<nat>
    requires cpu < |s.current| && s.current[cpu].Some?
  {
    var t := s.current[cpu].value;
    if ch.Pick? && t.pid != 0 && !Requeued(t.state) then Some(t.pid) else None
  }

  lemma CountRequeue(q: seq<Thread>, t: Thread, pid: nat)
    requires pid > 0
    ensures Count(Requeue(q, t), pid) == Count(q, pid) + if Requeued(t.state) then IsPid(t, pid) else 0
  {
    CountAppend(q, t.(state := Ready), pid);
    CountAppend(q, t, pid);
  }

  /** Threads are conserved: only a thread that was running and is neither Running nor Blocked disappears. */
  lemma SwitchConserves(s: Sched, cpu: nat, ch: Choice, pid: nat)
    requires Inv(s) && cpu < |s.queues| && pid > 0 && Chosen(s.queues, cpu, ch)
    ensures Occurrences(Switch(s, cpu, ch), pid) ==
              Occurrences(s, pid) - if Dropped(s, cpu, ch) == Some(pid) then 1 else 0
  {
    var n := |s.queues|;
    var t := Charged(s.current[cpu].value);
    if ch.Nothing? {
      TotalUpdate(s.queues, s.current, n, cpu, s.queues[cpu], Some(t), pid);
      assert s.queues[cpu := s.queues[cpu]] == s.queues;
    } else {
      var from, i := ch.from, ch.index;
      var next := s.queues[from][i];
      var queues := s.queues[from := Without(s.queues[from], i)];
      CountWithout(s.queues[from], i, pid);
      TotalUpdate(s.queues, s.current, n, from, Without(s.queues[from], i), s.current[from], pid);
      assert s.current[from := s.current[from]] == s.current;
      CountRequeue(queues[cpu], t, pid);
      TotalUpdate(queues, s.current, n, cpu, Requeue(queues[cpu], t), Some(next.(state := Running)), pid);
    }
  }

  lemma SwitchKeepsWaiting(s: Sched, cpu: nat, ch: Choice)
    requires Inv(s) && cpu < |s.queues| && Chosen(s.queues, cpu, ch)
    ensures Waiting(Switch(s, cpu, ch).queues) && Occupied(Switch(s, cpu, ch).current)
  {
    if ch.Pick? {
      var from, i := ch.from, ch.index;
      var t := Charged(s.current[cpu].value);
      var q := Without(s.queues[from], i);
      assert forall j {:trigger q[j]} :: 0 <= j < |q| ==> q[j] == s.queues[from][if j < i then j else j + 1];
      var queues := s.queues[from := q];
      assert Waiting(queues);
      assert forall j :: 0 <= j < |queues[cpu]| ==> Requeue(queues[cpu], t)[j] == queues[cpu][j];
    }
  }

  lemma SwitchKeepsInv(s: Sched, cpu: nat, ch: Choice)
    requires Inv(s) && cpu < |s.queues| && Chosen(s.queues, cpu, ch)
    ensures Inv(Switch(s, cpu, ch))
  {
    var s' := Switch(s, cpu, ch);
    SwitchKeepsWaiting(s, cpu, ch);
    forall pid: nat | pid > 0 ensures Occurrences(s', pid) <= if pid < s'.nextPid then 1 else 0 {
      SwitchConserves(s, cpu, ch, pid);
    }
  }

  /** A steal takes from the busiest other queue and leaves it a Ready thread. */
  lemma StealLeavesReady(s: Sched, cpu: nat, ch: Choice)
    requires Inv(s) && cpu < |s.queues| && Chosen(s.queues, cpu, ch) && ch.Pick? && ch.from != cpu
    ensures ReadyCount(Switch(s, cpu, ch).queues[ch.from]) == ReadyCount(s.queues[ch.from]) - 1 >= 1
  {
    ReadyCountWithout(s.queues[ch.from], ch.index);
  }

  /** The choice is determined by the queues. */
  lemma ChoiceUnique(queues: seq<seq<Thread>>, cpu: nat, a: Choice, b: Choice)
    requires cpu < |queues| && Chosen(queues, cpu, a) && Chosen(queues, cpu, b)
    ensures a == b
  {
  }

  // A pid is in one place.

  lemma {:induction false} CountPositive(q: seq<Thread>, i: nat)
    requires i < |q|
    ensures Count(q, q[i].pid) >= 1
  {
    if i < |q| - 1 {
      CountPositive(q[..|q| - 1], i);
    }
  }

  lemma {:induction false} CountTwo(q: seq<Thread>, i: nat, j: nat)
    requires i < j < |q| && q[i].pid == q[j].pid
    ensures Count(q, q[i].pid) >= 2
  {
    if j < |q| - 1 {
      CountTwo(q[..|q| - 1], i, j);
    } else {
      CountPositive(q[..|q| - 1], i);
    }
  }

  lemma {:induction false} TotalOne(queues: seq<seq<Thread>>, current: seq<Option<Thread>>, n: nat, c: nat, pid: nat)
    requires c < n <= |queues| == |current|
    ensures Total(queues, current, n, pid) >= Count(queues[c], pid) + CurrentCount(current[c], pid)
  {
    if c < n - 1 {
      TotalOne(queues, current, n - 1, c, pid);
    }
  }

  lemma {:induction false} TotalTwo(queues: seq<seq<Thread>>, current: seq<Option<Thread>>, n: nat, c: nat, d: nat,
                                    pid: nat)
    requires c < d < n <= |queues| == |current|
    ensures Total(queues, current, n, pid) >= Count(queues[c], pid) + Count(queues[d], pid)
  {
    if d < n - 1 {
      TotalTwo(queues, current, n - 1, c, d, pid);
    } else {
      TotalOne(queues, current, n - 1, c, pid);
    }
  }

  lemma OnePlace(s: Sched, c: nat, i: nat, d: nat, j: nat)
    requires Inv(s) && c < |s.queues| && d < |s.queues| && i < |s.queues[c]| && j < |s.queues[d]|
    requires s.queues[c][i].pid == s.queues[d][j].pid
    ensures c == d && i == j
  {
    var pid := s.queues[c][i].pid;
    assert Queueable(s.queues[c][i]);
    assert Occurrences(s, pid) <= 1;
    CountPositive(s.queues[c], i);
    CountPositive(s.queues[d], j);
    if c != d {
      TotalTwo(s.queues, s.current, |s.queues|, Min(c, d), Max(c, d), pid);
    } else {
      TotalOne(s.queues, s.current, |s.queues|, c, pid);
      if i != j {
        CountTwo(s.queues[c], Min(i, j), Max(i, j));
      }
    }
  }

  // Sleepers.

  /** `pid` has a deadline that has come. */
  ghost predicate IsDue(sleepers: map<nat, seq<nat>>, now: nat, pid: nat) {
    exists at {:trigger sleepers[at]} :: at in sleepers && at <= now && pid in sleepers[at]
  }

  function Later(sleepers: map<nat, seq<nat>>, now: nat): map<nat, seq<nat>> {
    map at | at in sleepers && at > now :: sleepers[at]
  }

  /** Exactly the Blocked threads with a pid in `pids` turn Ready. */
  ghost predicate Woken(queues: seq<seq<Thread>>, queues': seq<seq<Thread>>, pids: set<nat>) {
    && |queues'| == |queues|
    && (forall c {:trigger queues'[c]} :: 0 <= c < |queues| ==> |queues'[c]| == |queues[c]|)
    && (forall c, i {:trigger queues'[c][i]} :: 0 <= c < |queues| && 0 <= i < |queues[c]| ==>
          queues'[c][i] == var t := queues[c][i]; if t.state == Blocked && t.pid in pids then t.(state := Ready) else t)
  }

  /** Exactly the queued threads with a pid in `pids` die. */
  ghost predicate Killed(queues: seq<seq<Thread>>, queues': seq<seq<Thread>>, pids: set<nat>) {
    && |queues'| == |queues|
    && (forall c {:trigger queues'[c]} :: 0 <= c < |queues| ==> |queues'[c]| == |queues[c]|)
    && (forall c, i {:trigger queues'[c][i]} :: 0 <= c < |queues| && 0 <= i < |queues[c]| ==>
          queues'[c][i] == var t := queues[c][i]; if t.pid in pids then t.(state := Dead) else t)
  }

  ghost predicate KilledCurrent(current: seq<Option<Thread>>, current': seq<Option<Thread>>, pids: set<nat>) {
    && |current'| == |current|
    && (forall c {:trigger current'[c]} :: 0 <= c < |current| ==>
          current'[c] == if current[c].Some? && current[c].value.pid in pids then Some(current[c].value.(state := Dead))
                         else current[c])
  }

  /** A running thread with this pid that is Blocked turns Ready where it is. */
  ghost predicate WokenCurrent(current: seq<Option<Thread>>, current': seq<Option<Thread>>, pid: nat) {
    && |current'| == |current|
    && (forall c {:trigger current'[c]} :: 0 <= c < |current| ==>
          var t := current[c];
          current'[c] ==
            if t.Some? && t.value.pid == pid && t.value.state == Blocked then Some(t.value.(state := Ready)) else t)
  }

  function Marked(s: Sched, cpu: nat, state: ThreadState): Sched
    requires cpu < |s.current|
  {
    if s.current[cpu].Some? then s.(current := s.current[cpu := Some(s.current[cpu].value.(state := state))]) else s
  }

  function Registered(sleepers: map<nat, seq<nat>>, pid: nat, at: nat): map<nat, seq<nat>> {
    sleepers[at := (if at in sleepers then sleepers[at] else []) + [pid]]
  }

  /** `pids` without every occurrence of `pid`. */
  function Except(pids: seq<nat>, pid: nat): seq<nat> {
    if |pids| == 0 then []
    else Except(pids[..|pids| - 1], pid) + if pids[|pids| - 1] == pid then [] else [pids[|pids| - 1]]
  }

  lemma {:induction false} ExceptMembers(pids: seq<nat>, pid: nat)
    ensures multiset(Except(pids, pid)) == multiset(pids)[pid := 0]
    ensures forall p :: p in Except(pids, pid) <==> p in pids && p != pid
  {
    if |pids| > 0 {
      var front, last := pids[..|pids| - 1], pids[|pids| - 1];
      ExceptMembers(front, pid);
      assert pids == front + [last];
      ExceptNext(multiset(front), pid, last);
    }
    ExceptOf(pids, Except(pids, pid), pid);
  }

  lemma ExceptNext(m: multiset<nat>, pid: nat, last: nat)
    ensures (m + multiset{last})[pid := 0] == if last == pid then m[pid := 0] else m[pid := 0] + multiset{last}
  {
  }

  lemma ExceptOf(pids: seq<nat>, rest: seq<nat>, pid: nat)
    requires multiset(rest) == multiset(pids)[pid := 0]
    ensures forall p :: p in rest <==> p in pids && p != pid
  {
    forall p ensures p in rest <==> p in pids && p != pid {
      assert p in rest <==> p in multiset(rest);
      assert p in pids <==> p in multiset(pids);
    }
  }

  function Cancelled(sleepers: map<nat, seq<nat>>, pid: nat): map<nat, seq<nat>> {
    map at | at in sleepers :: Except(sleepers[at], pid)
  }

  // Runs.

  /** One event per section of the code that runs under a lock or as one atomic update. */
  datatype Event =
    | Init(cpus: nat)
    | Spawn
    | Schedule(cpu: nat, choice: Choice)
    | MarkCurrent(cpu: nat, state: ThreadState)
    | Register(pid: nat, at: nat)
    | Cancel(pid: nat)
    | Advance
    | Expire(now: nat, due: set<nat>)
    | Wake(batch: nat)
    | WakeTid(pid: nat)
    | MarkDead(pids: set<nat>)

  ghost predicate Step(s: Sched, e: Event, s': Sched) {
    match e
    case Init(cpus) =>
      && s.queues == [] && s.current == []
      && s' == s.(queues := seq(cpus, i => []), current := seq(cpus, i => Some(IDLE)))
    case Spawn =>
      if s.queues == [] then s' == s.(nextPid := s.nextPid + 1)
      else exists c: nat {:trigger IsLeastLoaded(s.queues, c)} :: IsLeastLoaded(s.queues, c) &&
             s' == s.(queues := s.queues[c := s.queues[c] + [Thread(s.nextPid, Ready, 0)]], nextPid := s.nextPid + 1)
    case Schedule(cpu, ch) =>
      && cpu < |s.queues| == |s.current| && s.current[cpu].Some? && Chosen(s.queues, cpu, ch)
      && s' == Switch(s, cpu, ch)
    case MarkCurrent(cpu, state) =>
      && cpu < |s.current| && (state == Blocked || state == Dead) && s' == Marked(s, cpu, state)
    case Register(pid, at) => s' == s.(sleepers := Registered(s.sleepers, pid, at))
    case Cancel(pid) => s' == s.(sleepers := Cancelled(s.sleepers, pid))
    case Advance => s' == s.(tick := s.tick + 1)
    case Expire(now, due) =>
      && now <= s.tick
      && (forall pid {:trigger pid in due} :: pid in due <==> IsDue(s.sleepers, now, pid))
      && s' == s.(sleepers := Later(s.sleepers, now), waking := s.waking + [due])
    case Wake(k) =>
      && k < |s.waking|
      && s' == s.(queues := s'.queues, waking := s.waking[..k] + s.waking[k + 1..])
      && Woken(s.queues, s'.queues, s.waking[k])
    case WakeTid(pid) =>
      && pid > 0 && s' == s.(queues := s'.queues, current := s'.current)
      && Woken(s.queues, s'.queues, {pid}) && WokenCurrent(s.current, s'.current, pid)
    case MarkDead(pids) =>
      && s' == s.(queues := s'.queues, current := s'.current)
      && Killed(s.queues, s'.queues, pids) && KilledCurrent(s.current, s'.current, pids)
  }

  lemma SamePidsKeepUnique(s: Sched, s': Sched)
    requires Inv(s) && |s'.queues| == |s.queues| && |s'.current| == |s.current| && s'.nextPid == s.nextPid
    requires forall c {:trigger s'.queues[c]} :: 0 <= c < |s.queues| ==> |s'.queues[c]| == |s.queues[c]|
    requires forall c, i {:trigger s'.queues[c][i]} :: 0 <= c < |s.queues| && 0 <= i < |s.queues[c]| ==>
               s'.queues[c][i].pid == s.queues[c][i].pid
    requires forall c {:trigger s'.current[c]} :: 0 <= c < |s.current| ==>
               s'.current[c].Some? && s'.current[c].value.pid == s.current[c].value.pid
    ensures forall pid: nat {:trigger Occurrences(s', pid)} :: Occurrences(s', pid) == Occurrences(s, pid)
    ensures Unique(s')
  {
    forall pid: nat ensures Occurrences(s', pid) == Occurrences(s, pid) {
      forall c | 0 <= c < |s.queues| ensures Count(s.queues[c], pid) == Count(s'.queues[c], pid) {
        CountSame(s.queues[c], s'.queues[c], pid);
      }
      TotalSame(s.queues, s'.queues, s.current, s'.current, |s.queues|, pid);
    }
  }

  lemma SpawnKeepsInv(s: Sched, c: nat)
    requires Inv(s) && c < |s.queues|
    ensures Inv(s.(queues := s.queues[c := s.queues[c] + [Thread(s.nextPid, Ready, 0)]], nextPid := s.nextPid + 1))
  {
    var t := Thread(s.nextPid, Ready, 0);
    var s' := s.(queues := s.queues[c := s.queues[c] + [t]], nextPid := s.nextPid + 1);
    forall pid: nat | pid > 0 ensures Occurrences(s', pid) <= if pid < s'.nextPid then 1 else 0 {
      CountAppend(s.queues[c], t, pid);
      TotalUpdate(s.queues, s.current, |s.queues|, c, s.queues[c] + [t], s.current[c], pid);
      assert s.current[c := s.current[c]] == s.current;
      assert Occurrences(s, pid) <= if pid < s.nextPid then 1 else 0;
    }
  }

  lemma {:induction false} InitTotal(queues: seq<seq<Thread>>, current: seq<Option<Thread>>, n: nat, pid: nat)
    requires n <= |queues| == |current| && pid > 0
    requires forall c :: 0 <= c < n ==> queues[c] == [] && current[c] == Some(IDLE)
    ensures Total(queues, current, n, pid) == 0
  {
    if n > 0 {
      InitTotal(queues, current, n - 1, pid);
    }
  }

  lemma StepKeepsInv(s: Sched, e: Event, s': Sched)
    requires Inv(s) && Step(s, e, s')
    ensures Inv(s')
  {
    match e
    case Init(cpus) =>
      forall pid: nat | pid > 0 ensures Occurrences(s', pid) == 0 {
        InitTotal(s'.queues, s'.current, cpus, pid);
      }
    case Spawn =>
      if s.queues != [] {
        var c: nat :| IsLeastLoaded(s.queues, c) &&
          s' == s.(queues := s.queues[c := s.queues[c] + [Thread(s.nextPid, Ready, 0)]], nextPid := s.nextPid + 1);
        SpawnKeepsInv(s, c);
      }
    case Schedule(cpu, ch) => SwitchKeepsInv(s, cpu, ch);
    case MarkCurrent(cpu, state) => SamePidsKeepUnique(s, s');
    case Register(pid, at) => SamePidsKeepUnique(s, s');
    case Cancel(pid) => SamePidsKeepUnique(s, s');
    case Advance => SamePidsKeepUnique(s, s');
    case Expire(_, _) => SamePidsKeepUnique(s, s');
    case Wake(_) => SamePidsKeepUnique(s, s');
    case WakeTid(_) => SamePidsKeepUnique(s, s');
    case MarkDead(pids) => SamePidsKeepUnique(s, s');
  }

  const START := Sched([], [], map[], [], 0, 1)

  ghost predicate StepAt(states: seq<Sched>, events: seq<Event>, i: nat)
    requires i < |events| && |states| == |events| + 1
  {
    Step(states[i], events[i], states[i + 1])
  }

  ghost predicate IsRun(states: seq<Sched>, events: seq<Event>) {
    && |states| == |events| + 1
    && forall i: nat {:trigger StepAt(states, events, i)} :: i < |events| ==> StepAt(states, events, i)
  }

  lemma {:induction false} InvAlong(states: seq<Sched>, events: seq<Event>, i: nat)
    requires IsRun(states, events) && Inv(states[0]) && i < |states|
    ensures Inv(states[i])
  {
    if i > 0 {
      InvAlong(states, events, i - 1);
      assert StepAt(states, events, i - 1);
      StepKeepsInv(states[i - 1], events[i - 1], states[i]);
    }
  }

  /** Every state of every run has one running thread per CPU, unique pids and well-formed queues. */
  lemma RunKeepsInv(states: seq<Sched>, events: seq<Event>, i: nat)
    requires IsRun(states, events) && states[0] == START && i < |states|
    ensures Inv(states[i])
  {
    assert forall pid: nat :: Occurrences(START, pid) == 0;
    InvAlong(states, events, i);
  }

  /** Event `e` in state `s` drops the thread with this pid. */
  ghost predicate Drops(s: Sched, e: Event, pid: nat) {
    e.Schedule? && e.cpu < |s.current| && s.current[e.cpu].Some? && Dropped(s, e.cpu, e.choice) == Some(pid)
  }

  lemma StepConserves(s: Sched, e: Event, s': Sched, pid: nat)
    requires Inv(s) && Step(s, e, s') && 0 < pid < s.nextPid
    ensures |s'.queues| == |s'.current| && s'.nextPid >= s.nextPid
    ensures Occurrences(s', pid) == Occurrences(s, pid) - if Drops(s, e, pid) then 1 else 0
  {
    match e
    case Init(cpus) => InitTotal(s'.queues, s'.current, cpus, pid);
    case Spawn =>
      if s.queues != [] {
        var t := Thread(s.nextPid, Ready, 0);
        var c: nat :| IsLeastLoaded(s.queues, c) &&
          s' == s.(queues := s.queues[c := s.queues[c] + [t]], nextPid := s.nextPid + 1);
        CountAppend(s.queues[c], t, pid);
        TotalUpdate(s.queues, s.current, |s.queues|, c, s.queues[c] + [t], s.current[c], pid);
        assert s.current[c := s.current[c]] == s.current;
      }
    case Schedule(cpu, ch) => SwitchConserves(s, cpu, ch, pid);
    case MarkCurrent(cpu, state) => SamePidsKeepUnique(s, s');
    case Register(_, _) => SamePidsKeepUnique(s, s');
    case Cancel(_) => SamePidsKeepUnique(s, s');
    case Advance => SamePidsKeepUnique(s, s');
    case Expire(_, _) => SamePidsKeepUnique(s, s');
    case Wake(_) => SamePidsKeepUnique(s, s');
    case WakeTid(_) => SamePidsKeepUnique(s, s');
    case MarkDead(pids) => SamePidsKeepUnique(s, s');
  }

  /** A thread stays in the system until a `schedule` drops it. */
  lemma {:induction false} ThreadSurvives(states: seq<Sched>, events: seq<Event>, i: nat, j: nat, pid: nat)
    requires IsRun(states, events) && states[0] == START && i <= j < |states| && 0 < pid < states[i].nextPid
    requires Inv(states[i]) && Occurrences(states[i], pid) == 1
    requires forall k {:trigger events[k]} :: i <= k < j ==> !Drops(states[k], events[k], pid)
    ensures Inv(states[j]) && pid < states[j].nextPid && Occurrences(states[j], pid) == 1
  {
    if i < j {
      ThreadSurvives(states, events, i, j - 1, pid);
      assert StepAt(states, events, j - 1);
      assert !Drops(states[j - 1], events[j - 1], pid);
      StepKeepsInv(states[j - 1], events[j - 1], states[j]);
      StepConserves(states[j - 1], events[j - 1], states[j], pid);
    }
  }

  // Sleeping.

  predicate Down(t: Thread) {
    t.state == Blocked || t.state == Dead
  }

  /** No deadline and no tick in progress has `pid`. */
  ghost predicate NotPending(s: Sched, pid: nat) {
    && (forall at {:trigger s.sleepers[at]} :: at in s.sleepers ==> pid !in s.sleepers[at])
    && (forall k {:trigger s.waking[k]} :: 0 <= k < |s.waking| ==> pid !in s.waking[k])
  }

  ghost predicate AllDown(s: Sched, pid: nat) {
    && (forall c, i {:trigger s.queues[c][i]} :: 0 <= c < |s.queues| && 0 <= i < |s.queues[c]| ==>
          s.queues[c][i].pid == pid ==> Down(s.queues[c][i]))
    && (forall c {:trigger s.current[c]} :: 0 <= c < |s.current| && s.current[c].Some? ==>
          s.current[c].value.pid == pid ==> Down(s.current[c].value))
  }

  /** `pid` sleeps with nothing left to wake it. */
  ghost predicate Asleep(s: Sched, pid: nat) {
    AllDown(s, pid) && NotPending(s, pid)
  }

  lemma SwitchKeepsDown(s: Sched, cpu: nat, ch: Choice, pid: nat)
    requires Inv(s) && cpu < |s.queues| && Chosen(s.queues, cpu, ch) && AllDown(s, pid)
    ensures AllDown(Switch(s, cpu, ch), pid)
  {
    if ch.Pick? {
      var from, i := ch.from, ch.index;
      var t := Charged(s.current[cpu].value);
      var q := Without(s.queues[from], i);
      assert s.queues[from][i].pid != pid;
      assert forall j {:trigger q[j]} :: 0 <= j < |q| ==> q[j] == s.queues[from][if j < i then j else j + 1];
      var queues := s.queues[from := q];
      assert forall j :: 0 <= j < |queues[cpu]| ==> Requeue(queues[cpu], t)[j] == queues[cpu][j];
    }
  }

  /** Only a new registration makes `pid` pending. */
  lemma StepKeepsNotPending(s: Sched, e: Event, s': Sched, pid: nat)
    requires Step(s, e, s') && NotPending(s, pid) && (e.Register? ==> e.pid != pid)
    ensures NotPending(s', pid)
  {
    match e
    case Cancel(p) =>
      forall at | at in s'.sleepers ensures pid !in s'.sleepers[at] {
        ExceptMembers(s.sleepers[at], p);
      }
    case Expire(now, due) => assert pid !in due;
    case _ =>
  }

  lemma StepKeepsAsleep(s: Sched, e: Event, s': Sched, pid: nat)
    requires Inv(s) && Step(s, e, s') && 0 < pid < s.nextPid && Asleep(s, pid)
    requires e.Register? || e.WakeTid? ==> e.pid != pid
    ensures Asleep(s', pid)
  {
    StepKeepsNotPending(s, e, s', pid);
    match e
    case Schedule(cpu, ch) => SwitchKeepsDown(s, cpu, ch, pid);
    case Wake(k) => assert pid !in s.waking[k];
    case _ =>
  }

  /** A thread whose wakeup was lost never becomes Ready again unless it registers again or a futex wakes it. */
  lemma {:induction false} LostForever(states: seq<Sched>, events: seq<Event>, i: nat, j: nat, pid: nat)
    requires IsRun(states, events) && i <= j < |states| && Inv(states[i]) && 0 < pid < states[i].nextPid &&
             Asleep(states[i], pid)
    requires forall k {:trigger events[k]} :: i <= k < j && (events[k].Register? || events[k].WakeTid?) ==>
               events[k].pid != pid
    ensures Inv(states[j]) && pid < states[j].nextPid && Asleep(states[j], pid)
  {
    if i < j {
      LostForever(states, events, i, j - 1, pid);
      assert StepAt(states, events, j - 1);
      StepKeepsInv(states[j - 1], events[j - 1], states[j]);
      StepConserves(states[j - 1], events[j - 1], states[j], pid);
      StepKeepsAsleep(states[j - 1], events[j - 1], states[j], pid);
    }
  }

  ghost predicate Queued(s: Sched, pid: nat, state: ThreadState) {
    exists c, i {:trigger s.queues[c][i]} ::
      0 <= c < |s.queues| && 0 <= i < |s.queues[c]| && s.queues[c][i].pid == pid && s.queues[c][i].state == state
  }

  ghost predicate QueuedReady(s: Sched, pid: nat) {
    Queued(s, pid, Ready)
  }

  ghost predicate Current(s: Sched, cpu: nat, pid: nat) {
    cpu < |s.current| && s.current[cpu].Some? && s.current[cpu].value.pid == pid
  }

  /** `pid` was made Ready where it runs. */
  ghost predicate ReadyOnCpu(s: Sched, cpu: nat, pid: nat) {
    Current(s, cpu, pid) && s.current[cpu].value.state == Ready
  }

  /** `pid` is marked Blocked but still the thread of its CPU. */
  ghost predicate BlockedOnCpu(s: Sched, cpu: nat, pid: nat) {
    Current(s, cpu, pid) && s.current[cpu].value.state == Blocked
  }

  lemma CurrentNotQueued(s: Sched, cpu: nat, c: nat, i: nat)
    requires Inv(s) && cpu < |s.current| && c < |s.queues| && i < |s.queues[c]|
    ensures s.queues[c][i].pid != s.current[cpu].value.pid
  {
    var pid := s.queues[c][i].pid;
    assert Queueable(s.queues[c][i]);
    assert Occurrences(s, pid) <= 1;
    CountPositive(s.queues[c], i);
    if pid == s.current[cpu].value.pid {
      TotalBoth(s.queues, s.current, |s.queues|, c, cpu, pid);
    }
  }

  lemma {:induction false} TotalCurrent(queues: seq<seq<Thread>>, current: seq<Option<Thread>>, n: nat, d: nat,
                                        pid: nat)
    requires d < n <= |queues| == |current|
    ensures Total(queues, current, n, pid) >= CurrentCount(current[d], pid)
  {
    if d < n - 1 {
      TotalCurrent(queues, current, n - 1, d, pid);
    }
  }

  lemma {:induction false} TotalBoth(queues: seq<seq<Thread>>, current: seq<Option<Thread>>, n: nat, c: nat, d: nat,
                                     pid: nat)
    requires c < n && d < n && n <= |queues| == |current|
    ensures Total(queues, current, n, pid) >= Count(queues[c], pid) + CurrentCount(current[d], pid)
  {
    if c < n - 1 && d < n - 1 {
      TotalBoth(queues, current, n - 1, c, d, pid);
    } else if c < n - 1 {
      TotalOne(queues, current, n - 1, c, pid);
    } else if d < n - 1 {
      TotalCurrent(queues, current, n - 1, d, pid);
    }
  }

  lemma {:induction false} TotalCurrents(queues: seq<seq<Thread>>, current: seq<Option<Thread>>, n: nat, c: nat, d: nat,
                                         pid: nat)
    requires c < d < n <= |queues| == |current|
    ensures Total(queues, current, n, pid) >= CurrentCount(current[c], pid) + CurrentCount(current[d], pid)
  {
    if d < n - 1 {
      TotalCurrents(queues, current, n - 1, c, d, pid);
    } else {
      TotalCurrent(queues, current, n - 1, c, pid);
    }
  }

  /** A thread runs on one CPU only. */
  lemma CurrentOnce(s: Sched, c: nat, d: nat, pid: nat)
    requires Inv(s) && pid > 0 && Current(s, c, pid) && Current(s, d, pid)
    ensures c == d
  {
    assert Occurrences(s, pid) <= 1;
    if c != d {
      TotalCurrents(s.queues, s.current, |s.queues|, Min(c, d), Max(c, d), pid);
    }
  }

  /** The state after an uninterrupted `block_current_until` on `cpu`. */
  function Sleep(s: Sched, cpu: nat, at: nat, ch: Choice): Sched
    requires cpu < |s.queues| == |s.current| && s.current[cpu].Some?
    requires ch.Pick? ==> ch.from < |s.queues| && ch.index < |s.queues[ch.from]|
  {
    var s1 := Marked(s, cpu, Blocked);
    Switch(s1.(sleepers := Registered(s.sleepers, s.current[cpu].value.pid, at)), cpu, ch)
  }

  // When a wakeup is lost.

  /** A timer tick wakes `pid`. */
  predicate TickWakes(s: Sched, e: Event, pid: nat) {
    e.Wake? && e.batch < |s.waking| && pid in s.waking[e.batch]
  }

  predicate Wakes(s: Sched, e: Event, pid: nat) {
    TickWakes(s, e, pid) || e == WakeTid(pid)
  }

  ghost predicate Kills(s: Sched, e: Event, pid: nat) {
    || (e.MarkDead? && pid in e.pids)
    || (e.MarkCurrent? && e.state == Dead && Current(s, e.cpu, pid))
  }

  /** `cpu` switches to another thread. */
  predicate Switches(e: Event, cpu: nat) {
    e.Schedule? && e.cpu == cpu && e.choice.Pick?
  }

  ghost predicate SwitchedBetween(events: seq<Event>, i: nat, j: nat, cpu: nat)
    requires j <= |events|
  {
    exists k {:trigger events[k]} :: i < k < j && Switches(events[k], cpu)
  }

  lemma SwitchParks(s: Sched, cpu: nat, ch: Choice, pid: nat)
    requires Inv(s) && pid > 0 && BlockedOnCpu(s, cpu, pid) && Chosen(s.queues, cpu, ch) && ch.Pick?
    ensures Queued(Switch(s, cpu, ch), pid, Blocked)
  {
    var s' := Switch(s, cpu, ch);
    var i := |s'.queues[cpu]| - 1;
    assert s'.queues[cpu][i] == Charged(s.current[cpu].value);
  }

  lemma StepFromCpu(s: Sched, e: Event, s': Sched, cpu: nat, pid: nat)
    requires Inv(s) && Step(s, e, s') && pid > 0 && BlockedOnCpu(s, cpu, pid) && !Kills(s, e, pid) && e != WakeTid(pid)
    ensures if Switches(e, cpu) then Queued(s', pid, Blocked) else BlockedOnCpu(s', cpu, pid)
  {
    if Switches(e, cpu) {
      SwitchParks(s, cpu, e.choice, pid);
    }
  }

  /** Where a switch leaves a queued thread that it does not pick. */
  lemma SwitchLeaves(s: Sched, cpu: nat, ch: Choice, c: nat, i: nat) returns (j: nat)
    requires Inv(s) && cpu < |s.queues| && Chosen(s.queues, cpu, ch) && ch.Pick?
    requires c < |s.queues| && i < |s.queues[c]| && !(c == ch.from && i == ch.index)
    ensures var q := Switch(s, cpu, ch).queues[c]; j < |q| && q[j] == s.queues[c][i]
  {
    j := if c == ch.from && ch.index < i then i - 1 else i;
    var queues := s.queues[ch.from := Without(s.queues[ch.from], ch.index)];
    assert j < |queues[c]| && queues[c][j] == s.queues[c][i];
  }

  lemma SwitchKeepsParked(s: Sched, cpu: nat, ch: Choice, pid: nat)
    requires Inv(s) && cpu < |s.queues| && Chosen(s.queues, cpu, ch) && Queued(s, pid, Blocked)
    ensures Queued(Switch(s, cpu, ch), pid, Blocked)
  {
    var c, i :| 0 <= c < |s.queues| && 0 <= i < |s.queues[c]| && s.queues[c][i].pid == pid &&
      s.queues[c][i].state == Blocked;
    if ch.Pick? {
      assert s.queues[ch.from][ch.index].state == Ready;
      var j := SwitchLeaves(s, cpu, ch, c, i);
      assert Switch(s, cpu, ch).queues[c][j].state == Blocked;
    }
  }

  lemma StepKeepsParked(s: Sched, e: Event, s': Sched, pid: nat)
    requires Inv(s) && Step(s, e, s') && Queued(s, pid, Blocked) && !Kills(s, e, pid) && !Wakes(s, e, pid)
    ensures Queued(s', pid, Blocked)
  {
    var c, i :| 0 <= c < |s.queues| && 0 <= i < |s.queues[c]| && s.queues[c][i].pid == pid &&
      s.queues[c][i].state == Blocked;
    if e.Schedule? {
      SwitchKeepsParked(s, e.cpu, e.choice, pid);
    } else {
      assert s'.queues[c][i] == s.queues[c][i];
    }
  }

  /** Between the mark and its wakeup a sleeper is Blocked: on its CPU, and in a queue once that CPU has switched. */
  lemma {:induction false} SleeperPlace(states: seq<Sched>, events: seq<Event>, m: nat, k: nat, cpu: nat, pid: nat)
    requires IsRun(states, events) && Inv(states[0]) && m < k <= |events| && pid > 0
    requires events[m] == MarkCurrent(cpu, Blocked) && Current(states[m], cpu, pid)
    requires forall j {:trigger events[j]} :: m < j < k ==>
               !Wakes(states[j], events[j], pid) && !Kills(states[j], events[j], pid)
    ensures if SwitchedBetween(events, m, k, cpu) then Queued(states[k], pid, Blocked)
            else BlockedOnCpu(states[k], cpu, pid)
  {
    var s, e, s' := states[k - 1], events[k - 1], states[k];
    assert StepAt(states, events, k - 1);
    if k > m + 1 {
      SleeperPlace(states, events, m, k - 1, cpu, pid);
      InvAlong(states, events, k - 1);
      if SwitchedBetween(events, m, k - 1, cpu) {
        StepKeepsParked(s, e, s', pid);
      } else {
        StepFromCpu(s, e, s', cpu, pid);
        assert SwitchedBetween(events, m, k, cpu) <==> Switches(e, cpu);
      }
    }
  }

  lemma ParkedWakes(s: Sched, e: Event, s': Sched, pid: nat)
    requires Step(s, e, s') && Wakes(s, e, pid) && Queued(s, pid, Blocked)
    ensures QueuedReady(s', pid)
  {
    var c, i :| 0 <= c < |s.queues| && 0 <= i < |s.queues[c]| && s.queues[c][i].pid == pid &&
      s.queues[c][i].state == Blocked;
    assert s'.queues[c][i].state == Ready;
  }

  /** No queue has a running thread, and no other CPU runs it. */
  lemma CurrentIsAlone(s: Sched, s': Sched, cpu: nat, pid: nat)
    requires Inv(s) && pid > 0 && Current(s, cpu, pid) && |s'.queues| == |s.queues| && |s'.current| == |s.current|
    requires forall c {:trigger s'.queues[c]} :: 0 <= c < |s.queues| ==> |s'.queues[c]| == |s.queues[c]|
    requires forall c, i {:trigger s'.queues[c][i]} :: 0 <= c < |s.queues| && 0 <= i < |s.queues[c]| ==>
               s'.queues[c][i].pid == s.queues[c][i].pid
    requires forall c {:trigger s'.current[c]} :: 0 <= c < |s.current| ==>
               s'.current[c].Some? && s'.current[c].value.pid == s.current[c].value.pid
    ensures !QueuedReady(s', pid)
    ensures Down(s'.current[cpu].value) ==> AllDown(s', pid)
  {
    forall c, i | 0 <= c < |s'.queues| && 0 <= i < |s'.queues[c]| ensures s'.queues[c][i].pid != pid {
      CurrentNotQueued(s, cpu, c, i);
    }
    forall c: nat | c < |s'.current| && s'.current[c].value.pid == pid ensures c == cpu {
      CurrentOnce(s, c, cpu, pid);
    }
  }

  /**
   * The wakeup of a thread that marked itself Blocked, by a timer tick or a futex, makes it Ready in a queue exactly
   * when its CPU has switched to another thread since the mark, whatever the other CPUs did in between.
   */
  lemma WokenIffSwitched(states: seq<Sched>, events: seq<Event>, m: nat, w: nat, cpu: nat, pid: nat)
    requires IsRun(states, events) && Inv(states[0]) && m < w < |events| && pid > 0
    requires events[m] == MarkCurrent(cpu, Blocked) && Current(states[m], cpu, pid)
    requires Wakes(states[w], events[w], pid)
    requires forall j {:trigger events[j]} :: m < j < w ==>
               !Wakes(states[j], events[j], pid) && !Kills(states[j], events[j], pid)
    ensures QueuedReady(states[w + 1], pid) <==> SwitchedBetween(events, m, w, cpu)
    ensures !SwitchedBetween(events, m, w, cpu) && events[w].Wake? ==> AllDown(states[w + 1], pid)
    ensures !SwitchedBetween(events, m, w, cpu) && events[w].WakeTid? ==> ReadyOnCpu(states[w + 1], cpu, pid)
  {
    SleeperPlace(states, events, m, w, cpu, pid);
    InvAlong(states, events, w);
    assert StepAt(states, events, w);
    if SwitchedBetween(events, m, w, cpu) {
      ParkedWakes(states[w], events[w], states[w + 1], pid);
    } else {
      CurrentIsAlone(states[w], states[w + 1], cpu, pid);
    }
  }

  /** How many ticks in progress have `pid`. */
  ghost function Holders(waking: seq<set<nat>>, pid: nat): nat {
    if |waking| == 0 then 0
    else Holders(waking[..|waking| - 1], pid) + if pid in waking[|waking| - 1] then 1 else 0
  }

  lemma {:induction false} HoldersZero(waking: seq<set<nat>>, pid: nat)
    ensures Holders(waking, pid) == 0 <==> forall k {:trigger waking[k]} :: 0 <= k < |waking| ==> pid !in waking[k]
  {
    if |waking| > 0 {
      HoldersZero(waking[..|waking| - 1], pid);
      assert forall k {:trigger waking[k]} :: 0 <= k < |waking| - 1 ==> waking[..|waking| - 1][k] == waking[k];
    }
  }

  lemma {:induction false} HoldersWithout(waking: seq<set<nat>>, k: nat, pid: nat)
    requires k < |waking|
    ensures Holders(waking[..k] + waking[k + 1..], pid) == Holders(waking, pid) - if pid in waking[k] then 1 else 0
  {
    var rest, n := waking[..k] + waking[k + 1..], |waking| - 1;
    if k == n {
      assert rest == waking[..n];
    } else {
      HoldersWithout(waking[..n], k, pid);
      assert rest[..n - 1] == waking[..n][..k] + waking[..n][k + 1..] && rest[n - 1] == waking[n];
    }
  }

  /** `pid` has at most the deadline `at`, or its deadline has come and one tick in progress has it. */
  ghost predicate PendingOnce(s: Sched, pid: nat, at: nat) {
    && (forall x {:trigger s.sleepers[x]} :: x in s.sleepers && pid in s.sleepers[x] ==>
          x == at && Holders(s.waking, pid) == 0)
    && Holders(s.waking, pid) <= 1
    && (Holders(s.waking, pid) == 1 ==> at <= s.tick)
  }

  lemma StepKeepsPendingOnce(s: Sched, e: Event, s': Sched, pid: nat, at: nat)
    requires Step(s, e, s') && PendingOnce(s, pid, at) && !TickWakes(s, e, pid)
    requires e.Register? && e.pid == pid ==> NotPending(s, pid) && e.at == at
    ensures PendingOnce(s', pid, at)
  {
    match e
    case Register(_, _) => HoldersZero(s.waking, pid);
    case Cancel(p) =>
      forall x | x in s.sleepers ensures pid in s'.sleepers[x] ==> pid in s.sleepers[x] {
        ExceptMembers(s.sleepers[x], p);
      }
    case Expire(now, due) => ExpireKeepsPendingOnce(s, now, due, s', pid, at);
    case Wake(k) => HoldersWithout(s.waking, k, pid);
    case _ =>
  }

  lemma ExpireKeepsPendingOnce(s: Sched, now: nat, due: set<nat>, s': Sched, pid: nat, at: nat)
    requires Step(s, Expire(now, due), s') && PendingOnce(s, pid, at)
    ensures PendingOnce(s', pid, at)
  {
    assert s'.waking[..|s.waking|] == s.waking && s'.waking[|s.waking|] == due;
    assert Holders(s'.waking, pid) == Holders(s.waking, pid) + if pid in due then 1 else 0;
    if pid in due {
      var x :| x in s.sleepers && x <= now && pid in s.sleepers[x];
      assert x == at;
    }
  }

  lemma WakeUsesUp(s: Sched, e: Event, s': Sched, pid: nat, at: nat)
    requires Step(s, e, s') && PendingOnce(s, pid, at) && TickWakes(s, e, pid)
    ensures NotPending(s', pid) && at <= s.tick
  {
    HoldersWithout(s.waking, e.batch, pid);
    HoldersZero(s'.waking, pid);
  }

  lemma {:induction false} PendingAlong(states: seq<Sched>, events: seq<Event>, m: nat, r: nat, k: nat, pid: nat,
                                        at: nat)
    requires IsRun(states, events) && m < r && m <= k <= |events| && r < |events|
    requires NotPending(states[m], pid) && events[r] == Register(pid, at)
    requires forall j {:trigger events[j]} :: m <= j < k ==> !TickWakes(states[j], events[j], pid)
    requires forall j {:trigger events[j]} :: m <= j < k && j != r && events[j].Register? ==> events[j].pid != pid
    ensures PendingOnce(states[k], pid, at) && (k <= r ==> NotPending(states[k], pid))
  {
    if k > m {
      PendingAlong(states, events, m, r, k - 1, pid, at);
      assert StepAt(states, events, k - 1);
      StepKeepsPendingOnce(states[k - 1], events[k - 1], states[k], pid, at);
      if k <= r {
        StepKeepsNotPending(states[k - 1], events[k - 1], states[k], pid);
      }
    } else {
      HoldersZero(states[m].waking, pid);
    }
  }

  /**
   * A thread that blocks itself and registers one deadline is woken no earlier than that, and is lost by that wakeup
   * exactly when its CPU has not switched to another thread since the mark.
   */
  lemma LostIffNotSwitched(states: seq<Sched>, events: seq<Event>, m: nat, r: nat, w: nat, cpu: nat, pid: nat, at: nat)
    requires IsRun(states, events) && Inv(states[0]) && m < r < w < |events| && pid > 0
    requires events[m] == MarkCurrent(cpu, Blocked) && Current(states[m], cpu, pid) && NotPending(states[m], pid)
    requires events[r] == Register(pid, at) && TickWakes(states[w], events[w], pid)
    requires forall j {:trigger events[j]} :: m < j < w ==>
               !Wakes(states[j], events[j], pid) && !Kills(states[j], events[j], pid)
    requires forall j {:trigger events[j]} :: m < j < w && j != r && events[j].Register? ==> events[j].pid != pid
    ensures at <= states[w].tick
    ensures Asleep(states[w + 1], pid) <==> !SwitchedBetween(events, m, w, cpu)
  {
    WokenIffSwitched(states, events, m, w, cpu, pid);
    PendingAlong(states, events, m, r, w, pid, at);
    assert StepAt(states, events, w);
    WakeUsesUp(states[w], events[w], states[w + 1], pid, at);
  }

  // When a thread is lost.

  /** A futex wakes `pid` before it has left its CPU. */
  ghost predicate WakesOnCpu(s: Sched, e: Event, pid: nat) {
    e == WakeTid(pid) && exists c: nat :: BlockedOnCpu(s, c, pid)
  }

  /** `pid` is not Dead, and not Ready where it runs. */
  ghost predicate Sound(s: Sched, pid: nat) {
    && (forall c, i {:trigger s.queues[c][i]} :: 0 <= c < |s.queues| && 0 <= i < |s.queues[c]| ==>
          s.queues[c][i].pid == pid ==> s.queues[c][i].state != Dead)
    && (forall c: nat {:trigger s.current[c]} :: Current(s, c, pid) ==> Requeued(s.current[c].value.state))
  }

  lemma SwitchKeepsSound(s: Sched, cpu: nat, ch: Choice, pid: nat)
    requires Inv(s) && cpu < |s.queues| && Chosen(s.queues, cpu, ch) && pid > 0 && Sound(s, pid)
    ensures Sound(Switch(s, cpu, ch), pid)
  {
    if ch.Pick? {
      var from, i := ch.from, ch.index;
      var t := Charged(s.current[cpu].value);
      var q := Without(s.queues[from], i);
      assert Current(s, cpu, t.pid);
      assert forall j {:trigger q[j]} :: 0 <= j < |q| ==> q[j] == s.queues[from][if j < i then j else j + 1];
      var queues := s.queues[from := q];
      assert forall j :: 0 <= j < |queues[cpu]| ==> Requeue(queues[cpu], t)[j] == queues[cpu][j];
    }
  }

  lemma StepKeepsSound(s: Sched, e: Event, s': Sched, pid: nat)
    requires Inv(s) && Step(s, e, s') && 0 < pid < s.nextPid && Sound(s, pid)
    requires !Kills(s, e, pid) && !WakesOnCpu(s, e, pid)
    ensures Sound(s', pid) && !Drops(s, e, pid)
  {
    if e.Schedule? {
      SwitchKeepsSound(s, e.cpu, e.choice, pid);
      assert Current(s, e.cpu, s.current[e.cpu].value.pid);
    } else if !e.Init? {
      forall c: nat | Current(s', c, pid) ensures Requeued(s'.current[c].value.state) {
        assert Current(s, c, pid) && (e == WakeTid(pid) ==> !BlockedOnCpu(s, c, pid));
      }
    }
  }

  /** A thread that is neither killed nor woken by a futex before it has left its CPU is never lost. */
  lemma {:induction false} NeverLost(states: seq<Sched>, events: seq<Event>, i: nat, j: nat, pid: nat)
    requires IsRun(states, events) && i <= j < |states| && 0 < pid < states[i].nextPid
    requires Inv(states[i]) && Occurrences(states[i], pid) == 1 && Sound(states[i], pid)
    requires forall k {:trigger events[k]} :: i <= k < j ==>
               !Kills(states[k], events[k], pid) && !WakesOnCpu(states[k], events[k], pid)
    ensures Inv(states[j]) && pid < states[j].nextPid && Occurrences(states[j], pid) == 1 && Sound(states[j], pid)
  {
    if i < j {
      NeverLost(states, events, i, j - 1, pid);
      var s, e, s' := states[j - 1], events[j - 1], states[j];
      assert StepAt(states, events, j - 1);
      assert !Kills(s, e, pid);
      StepKeepsInv(s, e, s');
      StepKeepsSound(s, e, s', pid);
      StepConserves(s, e, s', pid);
    }
  }

  ghost predicate MarksCpu(e: Event, cpu: nat) {
    e.MarkCurrent? && e.cpu == cpu
  }

  lemma {:induction false} ReadyStaysOnCpu(states: seq<Sched>, events: seq<Event>, i: nat, k: nat, cpu: nat, pid: nat)
    requires IsRun(states, events) && i <= k < |states| && ReadyOnCpu(states[i], cpu, pid)
    requires forall j {:trigger events[j]} :: i <= j < k ==>
               !Switches(events[j], cpu) && !MarksCpu(events[j], cpu) && !Kills(states[j], events[j], pid)
    ensures ReadyOnCpu(states[k], cpu, pid)
  {
    if i < k {
      ReadyStaysOnCpu(states, events, i, k - 1, cpu, pid);
      assert StepAt(states, events, k - 1);
      assert !Switches(events[k - 1], cpu);
    }
  }

  /** A thread that a futex wakes before it has left its CPU is gone for good once that CPU switches. */
  lemma WokenOnCpuIsLost(states: seq<Sched>, events: seq<Event>, w: nat, j: nat, k: nat, cpu: nat, pid: nat)
    requires IsRun(states, events) && Inv(states[0]) && w < j < k < |states| && 0 < pid < states[0].nextPid
    requires events[w] == WakeTid(pid) && BlockedOnCpu(states[w], cpu, pid) && Switches(events[j], cpu)
    requires forall i {:trigger events[i]} :: w < i < j ==>
               !Switches(events[i], cpu) && !MarksCpu(events[i], cpu) && !Kills(states[i], events[i], pid)
    ensures Drops(states[j], events[j], pid) && Inv(states[k]) && Occurrences(states[k], pid) == 0
  {
    InvAlong(states, events, j);
    PidsGrow(states, events, 0, j);
    assert StepAt(states, events, w) && StepAt(states, events, j);
    assert ReadyOnCpu(states[w + 1], cpu, pid);
    ReadyStaysOnCpu(states, events, w + 1, j, cpu, pid);
    var s := states[j];
    TotalCurrent(s.queues, s.current, |s.queues|, cpu, pid);
    assert Occurrences(s, pid) == 1;
    StepKeepsInv(s, events[j], states[j + 1]);
    StepConserves(s, events[j], states[j + 1], pid);
    StaysGone(states, events, j + 1, k, pid);
  }

  lemma {:induction false} PidsGrow(states: seq<Sched>, events: seq<Event>, i: nat, j: nat)
    requires IsRun(states, events) && i <= j < |states|
    ensures states[i].nextPid <= states[j].nextPid
  {
    if i < j {
      PidsGrow(states, events, i, j - 1);
      assert StepAt(states, events, j - 1);
    }
  }

  lemma {:induction false} StaysGone(states: seq<Sched>, events: seq<Event>, i: nat, j: nat, pid: nat)
    requires IsRun(states, events) && i <= j < |states| && 0 < pid < states[i].nextPid
    requires Inv(states[i]) && Occurrences(states[i], pid) == 0
    ensures Inv(states[j]) && pid < states[j].nextPid && Occurrences(states[j], pid) == 0
  {
    if i < j {
      StaysGone(states, events, i, j - 1, pid);
      assert StepAt(states, events, j - 1);
      StepKeepsInv(states[j - 1], events[j - 1], states[j]);
      StepConserves(states[j - 1], events[j - 1], states[j], pid);
    }
  }

  // Runs of one CPU in which thread 1 goes to sleep.

  function Alone(others: seq<Thread>): Sched {
    Sched([others], [Some(Thread(1, Running, 0))], map[], [], 0, 3)
  }

  lemma AloneInv(others: seq<Thread>)
    requires others == [] || others == [Thread(2, Ready, 0)]
    ensures Inv(Alone(others))
  {
    var s := Alone(others);
    forall pid: nat | pid > 0 ensures Occurrences(s, pid) <= if pid < 3 then 1 else 0 {
      AloneCounts(others, pid);
    }
  }

  lemma AloneCounts(others: seq<Thread>, pid: nat)
    requires others == [] || others == [Thread(2, Ready, 0)]
    ensures Occurrences(Alone(others), pid) == if pid == 1 || (others != [] && pid == 2) then 1 else 0
  {
    var s := Alone(others);
    CountOthers(others, pid);
    assert Total(s.queues, s.current, 0, pid) == 0;
    assert Occurrences(s, pid) == 0 + Count(others, pid) + CurrentCount(s.current[0], pid);
  }

  lemma CountOthers(others: seq<Thread>, pid: nat)
    requires others == [] || others == [Thread(2, Ready, 0)]
    ensures Count(others, pid) == if others != [] && pid == 2 then 1 else 0
  {
    assert Count([], pid) == 0;
    if others != [] {
      assert others[..|others| - 1] == [];
    }
  }

  lemma Extend(states: seq<Sched>, events: seq<Event>, e: Event, s: Sched)
    requires IsRun(states, events) && Step(states[|events|], e, s)
    ensures IsRun(states + [s], events + [e])
  {
    var states', events' := states + [s], events + [e];
    forall i: nat | i < |events'| ensures StepAt(states', events', i) {
      assert i < |events| ==> StepAt(states, events, i);
    }
  }

  /** Thread 1 marks itself Blocked and registers for tick 1. */
  lemma GoesToSleep(others: seq<Thread>) returns (states: seq<Sched>, events: seq<Event>)
    ensures IsRun(states, events) && states[0] == Alone(others) && events == [MarkCurrent(0, Blocked), Register(1, 1)]
    ensures states[2] == Sched([others], [Some(Thread(1, Blocked, 0))], map[1 := [1]], [], 0, 3)
  {
    var s1 := Marked(Alone(others), 0, Blocked);
    assert [] + [1] == [1] && Registered(map[], 1, 1) == map[1 := [1]];
    Extend([Alone(others)], [], MarkCurrent(0, Blocked), s1);
    Extend([Alone(others), s1], [MarkCurrent(0, Blocked)], Register(1, 1), s1.(sleepers := map[1 := [1]]));
    states := [Alone(others), s1, s1.(sleepers := map[1 := [1]])];
    events := [MarkCurrent(0, Blocked), Register(1, 1)];
  }

  lemma SwitchToOnly(s: Sched, t: Thread, next: Thread)
    requires s.queues == [[next]] && s.current == [Some(t)] && t.pid != 0 && t.state == Blocked && next.state == Ready
    ensures Switch(s, 0, Pick(0, 0)) == s.(queues := [[Charged(t)]], current := [Some(next.(state := Running))])
  {
    assert Without([next], 0) == [];
    assert Requeue([], Charged(t)) == [Charged(t)];
  }

  /** The tick becomes 1, and the thread due at it is taken off the list of sleepers. */
  lemma DueAtOne(states: seq<Sched>, events: seq<Event>) returns (states': seq<Sched>, events': seq<Event>)
    requires IsRun(states, events)
    requires var s := states[|events|]; s.sleepers == map[1 := [1]] && s.waking == [] && s.tick == 0
    ensures IsRun(states', events') && states'[0] == states[0]
    ensures events' == events + [Advance, Expire(1, {1})]
    ensures states'[|events'|] == states[|events|].(sleepers := map[], waking := [{1}], tick := 1)
  {
    var s1 := states[|events|].(tick := 1);
    Extend(states, events, Advance, s1);
    states', events' := states + [s1], events + [Advance];
    var s2 := s1.(sleepers := map[], waking := [{1}]);
    assert Step(s1, Expire(1, {1}), s2) by {
      assert s1.sleepers[1] == [1];
    }
    Extend(states', events', Expire(1, {1}), s2);
    states', events' := states' + [s2], events' + [Expire(1, {1})];
  }

  /** The timer interrupt that makes the tick 1. */
  lemma TickOne(states: seq<Sched>, events: seq<Event>, woken: seq<seq<Thread>>)
    returns (states': seq<Sched>, events': seq<Event>)
    requires IsRun(states, events)
    requires var s := states[|events|]; s.sleepers == map[1 := [1]] && s.waking == [] && s.tick == 0
    requires Woken(states[|events|].queues, woken, {1})
    ensures IsRun(states', events') && states'[0] == states[0]
    ensures events' == events + [Advance, Expire(1, {1}), Wake(0)]
    ensures states'[|events'|] == states[|events|].(queues := woken, sleepers := map[], tick := 1)
  {
    states', events' := DueAtOne(states, events);
    var s3 := states'[|events'|].(queues := woken, waking := []);
    Extend(states', events', Wake(0), s3);
    states', events' := states' + [s3], events' + [Wake(0)];
  }

  /** Nothing else to run: sleeping until tick 1 loses the wakeup. */
  lemma LostWakeup() returns (states: seq<Sched>, events: seq<Event>)
    ensures IsRun(states, events) && states[0] == Alone([]) && Inv(states[0])
    ensures events == [MarkCurrent(0, Blocked), Register(1, 1), Schedule(0, Nothing), Advance, Expire(1, {1}), Wake(0)]
    ensures Asleep(states[6], 1)
  {
    AloneInv([]);
    states, events := GoesToSleep([]);
    var s3 := Sched([[]], [Some(Thread(1, Blocked, 1))], map[1 := [1]], [], 0, 3);
    Extend(states, events, Schedule(0, Nothing), s3);
    states, events := TickOne(states + [s3], events + [Schedule(0, Nothing)], [[]]);
  }

  /** Another thread is ready, but the due tick comes between the registration and the switch: lost as well. */
  lemma LostBeforeSwitch() returns (states: seq<Sched>, events: seq<Event>)
    ensures IsRun(states, events) && states[0] == Alone([Thread(2, Ready, 0)]) && Inv(states[0])
    ensures events == [MarkCurrent(0, Blocked), Register(1, 1), Advance, Expire(1, {1}), Wake(0),
                       Schedule(0, Pick(0, 0))]
    ensures Asleep(states[6], 1) && states[6].current == [Some(Thread(2, Running, 0))]
  {
    var others := [Thread(2, Ready, 0)];
    AloneInv(others);
    states, events := GoesToSleep(others);
    states, events := TickOne(states, events, [others]);
    var s6 := Sched([[Thread(1, Blocked, 1)]], [Some(Thread(2, Running, 0))], map[], [], 1, 3);
    SwitchToOnly(states[5], Thread(1, Blocked, 0), Thread(2, Ready, 0));
    Extend(states, events, Schedule(0, Pick(0, 0)), s6);
    states, events := states + [s6], events + [Schedule(0, Pick(0, 0))];
  }

  /** Thread 1 finds nothing else to run, and thread 3 is then spawned and switched to. */
  lemma SwitchesLate() returns (states: seq<Sched>, events: seq<Event>)
    ensures IsRun(states, events) && states[0] == Alone([])
    ensures events == [MarkCurrent(0, Blocked), Register(1, 1), Schedule(0, Nothing), Spawn, Schedule(0, Pick(0, 0))]
    ensures states[5] == Sched([[Thread(1, Blocked, 2)]], [Some(Thread(3, Running, 0))], map[1 := [1]], [], 0, 4)
  {
    states, events := GoesToSleep([]);
    var s3 := Sched([[]], [Some(Thread(1, Blocked, 1))], map[1 := [1]], [], 0, 3);
    Extend(states, events, Schedule(0, Nothing), s3);
    states, events := states + [s3], events + [Schedule(0, Nothing)];
    var s4 := s3.(queues := [[Thread(3, Ready, 0)]], nextPid := 4);
    assert IsLeastLoaded(s3.queues, 0) && s3.queues[0] + [Thread(3, Ready, 0)] == [Thread(3, Ready, 0)];
    Extend(states, events, Spawn, s4);
    states, events := states + [s4], events + [Spawn];
    var s5 := Sched([[Thread(1, Blocked, 2)]], [Some(Thread(3, Running, 0))], map[1 := [1]], [], 0, 4);
    SwitchToOnly(s4, Thread(1, Blocked, 1), Thread(3, Ready, 0));
    Extend(states, events, Schedule(0, Pick(0, 0)), s5);
    states, events := states + [s5], events + [Schedule(0, Pick(0, 0))];
  }

  /** Nothing else to run at the sleep, but a thread spawned before the deadline is switched to: woken. */
  lemma WokenAfterLateSwitch() returns (states: seq<Sched>, events: seq<Event>)
    ensures IsRun(states, events) && states[0] == Alone([]) && Inv(states[0])
    ensures events == [MarkCurrent(0, Blocked), Register(1, 1), Schedule(0, Nothing), Spawn, Schedule(0, Pick(0, 0)),
                       Advance, Expire(1, {1}), Wake(0)]
    ensures QueuedReady(states[8], 1)
  {
    AloneInv([]);
    states, events := SwitchesLate();
    states, events := TickOne(states, events, [[Thread(1, Ready, 2)]]);
    assert states[8].queues[0][0].state == Ready;
  }

  /** A futex wakes thread 1 between its registration and its switch. */
  lemma FutexWakes(others: seq<Thread>) returns (states: seq<Sched>, events: seq<Event>)
    requires forall i :: 0 <= i < |others| ==> others[i].pid != 1
    ensures IsRun(states, events) && states[0] == Alone(others)
    ensures events == [MarkCurrent(0, Blocked), Register(1, 1), Cancel(1), WakeTid(1)]
    ensures BlockedOnCpu(states[3], 0, 1)
    ensures states[4] == Sched([others], [Some(Thread(1, Ready, 0))], map[1 := []], [], 0, 3)
  {
    states, events := GoesToSleep(others);
    var s2 := states[2];
    var s3 := s2.(sleepers := map[1 := []]);
    var s4 := s3.(current := [Some(Thread(1, Ready, 0))]);
    assert Cancelled(s2.sleepers, 1) == map[1 := []] by {
      assert Except([1], 1) == [];
    }
    Extend(states, events, Cancel(1), s3);
    states, events := states + [s3], events + [Cancel(1)];
    Extend(states, events, WakeTid(1), s4);
    states, events := states + [s4], events + [WakeTid(1)];
  }

  /** The switch after that throws thread 1 away. */
  lemma LostByFutexWake() returns (states: seq<Sched>, events: seq<Event>)
    ensures IsRun(states, events) && states[0] == Alone([Thread(2, Ready, 0)]) && Inv(states[0])
    ensures events == [MarkCurrent(0, Blocked), Register(1, 1), Cancel(1), WakeTid(1), Schedule(0, Pick(0, 0))]
    ensures Occurrences(states[0], 1) == 1 && Inv(states[5]) && Occurrences(states[5], 1) == 0
  {
    var others := [Thread(2, Ready, 0)];
    AloneInv(others);
    AloneCounts(others, 1);
    states, events := FutexWakes(others);
    var s5 := Switch(states[4], 0, Pick(0, 0));
    Extend(states, events, Schedule(0, Pick(0, 0)), s5);
    states, events := states + [s5], events + [Schedule(0, Pick(0, 0))];
    WokenOnCpuIsLost(states, events, 3, 4, 5, 0, 1);
  }
}

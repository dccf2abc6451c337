/** How long a Ready thread waits on one CPU (kernel/src/sched/scheduler.rs, picking and requeueing). */
module Fairness {
  import opened Common
  import opened Scheduler

  /** One CPU, a thread running, others queued, and all of them always runnable. */
  ghost predicate Busy(s: Sched) {
    && |s.queues| == 1 == |s.current| && s.current[0].Some?
    && s.current[0].value.pid != 0 && s.current[0].value.state == Running && s.current[0].value.vruntime <= MAX_VRUNTIME
    && |s.queues[0]| > 0
    && (forall i {:trigger s.queues[0][i]} :: 0 <= i < |s.queues[0]| ==>
          s.queues[0][i].pid != 0 && s.queues[0][i].state == Ready && s.queues[0][i].vruntime <= MAX_VRUNTIME)
  }

  /** Consecutive calls of `schedule`. */
  ghost predicate CallAt(states: seq<Sched>, choices: seq<Choice>, i: nat)
    requires i < |choices| && |states| == |choices| + 1
  {
    Step(states[i], Schedule(0, choices[i]), states[i + 1])
  }

  ghost predicate Calls(states: seq<Sched>, choices: seq<Choice>) {
    && |states| == |choices| + 1
    && forall i: nat {:trigger CallAt(states, choices, i)} :: i < |choices| ==> CallAt(states, choices, i)
  }

  // A bound for arbitrary virtual runtimes.

  /** How many times `u` can be preferred to a thread with virtual runtime `v`; `tie` if `u` is ahead of it. */
  ghost function Cost(u: Thread, v: nat, tie: bool): nat {
    if u.vruntime < v then v - u.vruntime else if tie && u.vruntime == v then 1 else 0
  }

  ghost function Costs(q: seq<Thread>, v: nat, tie: bool): nat {
    if |q| == 0 then 0 else Costs(q[..|q| - 1], v, tie) + Cost(q[|q| - 1], v, tie)
  }

  /** An upper bound on the calls until the thread at position `j` of the queue runs. */
  ghost function Potential(s: Sched, j: nat): nat
    requires Busy(s) && j < |s.queues[0]|
  {
    Bound(s.queues[0], j, Charged(s.current[0].value))
  }

  ghost function Bound(q: seq<Thread>, j: nat, running: Thread): nat
    requires j < |q|
  {
    var v := q[j].vruntime;
    1 + Costs(q[..j], v, true) + Costs(q[j + 1..], v, false) + Cost(running, v, false)
  }

  lemma CostsAppend(q: seq<Thread>, t: Thread, v: nat, tie: bool)
    ensures Costs(q + [t], v, tie) == Costs(q, v, tie) + Cost(t, v, tie)
  {
    assert (q + [t])[..|q|] == q;
  }

  lemma {:induction false} CostsWithout(q: seq<Thread>, i: nat, v: nat, tie: bool)
    requires i < |q|
    ensures Costs(q, v, tie) == Costs(Without(q, i), v, tie) + Cost(q[i], v, tie)
  {
    var front := q[..|q| - 1];
    if i == |q| - 1 {
      assert Without(q, i) == front;
    } else {
      CostsWithout(front, i, v, tie);
      assert Without(q, i)[..|q| - 2] == Without(front, i);
    }
  }

  /** Where the thread at position `j` moves when the one at `i` is taken. */
  function Moved(j: nat, i: nat): nat {
    if i < j then j - 1 else j
  }

  lemma BusyStays(s: Sched, ch: Choice)
    requires Busy(s) && Chosen(s.queues, 0, ch)
    ensures ch.Pick? && ch.from == 0 && IsFirstMin(s.queues[0], ch.index) && Busy(Switch(s, 0, ch))
    ensures var q, t := s.queues[0], Charged(s.current[0].value);
            && Switch(s, 0, ch).queues[0] == Without(q, ch.index) + [t.(state := Ready)]
            && Switch(s, 0, ch).current[0] == Some(q[ch.index].(state := Running))
  {
    var q := s.queues[0];
    assert q[0].state == Ready;
    var w := Without(q, ch.index);
    assert forall j {:trigger w[j]} :: 0 <= j < |w| ==> w[j] == q[if j < ch.index then j else j + 1];
  }

  lemma DropAhead(q: seq<Thread>, i: nat, j: nat, t: Thread, next: Thread)
    requires i < j < |q| && q[i].vruntime <= q[j].vruntime <= MAX_VRUNTIME && next.vruntime == Charge(q[i].vruntime)
    ensures Bound(Without(q, i) + [t], j - 1, next) == Bound(q, j, t) - 1
  {
    var v, q' := q[j].vruntime, Without(q, i) + [t];
    CostsWithout(q[..j], i, v, true);
    assert q'[..j - 1] == Without(q[..j], i);
    assert q'[j - 1] == q[j];
    assert q'[j..] == q[j + 1..] + [t];
    CostsAppend(q[j + 1..], t, v, false);
  }

  lemma DropBehind(q: seq<Thread>, i: nat, j: nat, t: Thread, next: Thread)
    requires j < i < |q| && q[i].vruntime < q[j].vruntime <= MAX_VRUNTIME && next.vruntime == Charge(q[i].vruntime)
    ensures Bound(Without(q, i) + [t], j, next) == Bound(q, j, t) - 1
  {
    var v, q', rest := q[j].vruntime, Without(q, i) + [t], q[j + 1..];
    CostsWithout(rest, i - j - 1, v, false);
    assert q'[..j] == q[..j];
    assert q'[j] == q[j];
    assert q'[j + 1..] == Without(rest, i - j - 1) + [t];
    CostsAppend(Without(rest, i - j - 1), t, v, false);
  }

  lemma BoundIgnoresState(q: seq<Thread>, t: Thread, j: nat, running: Thread, state: ThreadState)
    requires j < |q|
    ensures Bound(q + [t.(state := state)], j, running) == Bound(q + [t], j, running)
  {
    var v, a, b := q[j].vruntime, q + [t.(state := state)], q + [t];
    assert a[..j] == q[..j] == b[..j];
    assert a[j + 1..] == q[j + 1..] + [t.(state := state)] && b[j + 1..] == q[j + 1..] + [t];
    CostsAppend(q[j + 1..], t.(state := state), v, false);
    CostsAppend(q[j + 1..], t, v, false);
  }

  /** Every call that prefers another thread lowers the bound by exactly one. */
  lemma PotentialDrops(s: Sched, i: nat, j: nat)
    requires Busy(s) && Chosen(s.queues, 0, Pick(0, i)) && j < |s.queues[0]| && i != j
    ensures var s' := Switch(s, 0, Pick(0, i));
            && Busy(s') && Moved(j, i) < |s'.queues[0]| && s'.queues[0][Moved(j, i)] == s.queues[0][j]
            && Potential(s', Moved(j, i)) == Potential(s, j) - 1
  {
    BusyStays(s, Pick(0, i));
    var q, t := s.queues[0], Charged(s.current[0].value);
    var next := Charged(q[i].(state := Running));
    BoundIgnoresState(Without(q, i), t, Moved(j, i), next, Ready);
    if i < j {
      DropAhead(q, i, j, t, next);
    } else {
      DropBehind(q, i, j, t, next);
    }
  }

  /** No starvation: the thread at position `j` runs within `Potential` calls. */
  lemma {:induction false} RunsWithin(states: seq<Sched>, choices: seq<Choice>, j: nat)
    requires Calls(states, choices) && Busy(states[0]) && j < |states[0].queues[0]| &&
             |choices| >= Potential(states[0], j)
    ensures exists k {:trigger states[k]} :: 1 <= k <= Potential(states[0], j) &&
              states[k].current == [Some(states[0].queues[0][j].(state := Running))]
    decreases |choices|
  {
    var ch := choices[0];
    assert CallAt(states, choices, 0);
    BusyStays(states[0], ch);
    if ch == Pick(0, j) {
      assert states[1].current == [Some(states[0].queues[0][j].(state := Running))];
    } else {
      PotentialDrops(states[0], ch.index, j);
      var later, rest := states[1..], choices[1..];
      forall i: nat | i < |rest| ensures CallAt(later, rest, i) {
        assert CallAt(states, choices, i + 1);
      }
      RunsWithin(later, rest, Moved(j, ch.index));
      var k :| 1 <= k <= Potential(later[0], Moved(j, ch.index)) &&
        later[k].current == [Some(states[0].queues[0][j].(state := Running))];
      assert states[k + 1] == later[k];
    }
  }

  // Equal virtual runtimes at the start.

  /** The running thread is minimal; the first `k` in the queue equal it, the others have run once more. */
  ghost predicate Balanced(s: Sched, m: nat, k: nat) {
    && Busy(s) && s.current[0].value.vruntime == m && k <= |s.queues[0]|
    && (forall i {:trigger s.queues[0][i]} :: 0 <= i < |s.queues[0]| ==>
         s.queues[0][i].vruntime == if i < k then m else Charge(m))
  }

  /** All runnable threads have run the same number of times. */
  ghost predicate Level(s: Sched) {
    && Busy(s)
    && forall i {:trigger s.queues[0][i]} :: 0 <= i < |s.queues[0]| ==>
         s.queues[0][i].vruntime == s.current[0].value.vruntime
  }

  lemma {:induction false} LevelCosts(q: seq<Thread>, v: nat, tie: bool)
    requires forall i :: 0 <= i < |q| ==> q[i].vruntime == v
    ensures Costs(q, v, tie) == if tie then |q| else 0
  {
    if |q| > 0 {
      LevelCosts(q[..|q| - 1], v, tie);
    }
  }

  /** On a level state the general bound is the position in the queue, and so it is exact. */
  lemma LevelPotential(s: Sched, j: nat)
    requires Level(s) && j < |s.queues[0]|
    ensures Potential(s, j) == j + 1
  {
    var q, v := s.queues[0], s.queues[0][j].vruntime;
    LevelCosts(q[..j], v, true);
    LevelCosts(q[j + 1..], v, false);
  }

  lemma BalancedStep(s: Sched, ch: Choice, m: nat, k: nat)
    requires Balanced(s, m, k) && Chosen(s.queues, 0, ch)
    ensures ch == Pick(0, 0)
    ensures Switch(s, 0, ch).queues[0] ==
              s.queues[0][1..] + [s.current[0].value.(state := Ready, vruntime := Charge(m))]
    ensures Switch(s, 0, ch).current[0] == Some(s.queues[0][0].(state := Running))
    ensures if k > 0 then Balanced(Switch(s, 0, ch), m, k - 1) else Balanced(Switch(s, 0, ch), Charge(m), |s.queues[0]|)
  {
    BusyStays(s, ch);
    assert s.queues[0][0].state == Ready;
    assert Without(s.queues[0], 0) == s.queues[0][1..];
  }

  /** One call from a balanced state rotates the queue. */
  lemma Rotates(states: seq<Sched>, choices: seq<Choice>, n: nat, m: nat, k: nat)
    requires Calls(states, choices) && n < |choices| && Balanced(states[n], m, k)
    ensures |states[n + 1].queues| == 1 == |states[n + 1].current|
    ensures states[n + 1].queues[0] ==
              states[n].queues[0][1..] + [states[n].current[0].value.(state := Ready, vruntime := Charge(m))]
    ensures states[n + 1].current[0] == Some(states[n].queues[0][0].(state := Running))
    ensures if k > 0 then Balanced(states[n + 1], m, k - 1)
            else Balanced(states[n + 1], Charge(m), |states[n].queues[0]|)
  {
    assert CallAt(states, choices, n);
    BalancedStep(states[n], choices[n], m, k);
  }

  /** In every state reachable from a level one, the threads are within one time slice of each other. */
  lemma {:induction false} StaysBalanced(states: seq<Sched>, choices: seq<Choice>, n: nat) returns (m: nat, k: nat)
    requires Calls(states, choices) && Level(states[0]) && n < |states|
    ensures Balanced(states[n], m, k) && |states[n].queues[0]| == |states[0].queues[0]|
  {
    if n == 0 {
      m, k := states[0].current[0].value.vruntime, |states[0].queues[0]|;
    } else {
      m, k := StaysBalanced(states, choices, n - 1);
      Rotates(states, choices, n - 1, m, k);
      m, k := if k > 0 then m else Charge(m), if k > 0 then k - 1 else |states[0].queues[0]|;
    }
  }

  /** From a level state the queue is served in order: position `i` comes up after `i` calls. */
  lemma {:induction false} ServedInOrder(states: seq<Sched>, choices: seq<Choice>, n: nat, i: nat)
    requires Calls(states, choices) && Level(states[0]) && n <= i < |states[0].queues[0]| && n < |states|
    ensures |states[n].queues| == 1 && i - n < |states[n].queues[0]| &&
            states[n].queues[0][i - n] == states[0].queues[0][i]
  {
    if n > 0 {
      ServedInOrder(states, choices, n - 1, i);
      var m, k := StaysBalanced(states, choices, n - 1);
      Rotates(states, choices, n - 1, m, k);
    }
  }

  /** The two promises together: within one slice, and position `i` runs at exactly call `i + 1`. */
  lemma FairFromLevel(states: seq<Sched>, choices: seq<Choice>, n: nat, i: nat)
    requires Calls(states, choices) && Level(states[0]) && n < |states| && i < |states[0].queues[0]| < |states|
    ensures Busy(states[n])
    ensures var v := states[n].current[0].value.vruntime;
            forall j {:trigger states[n].queues[0][j]} :: 0 <= j < |states[n].queues[0]| ==>
              v <= states[n].queues[0][j].vruntime <= v + 1
    ensures |states[i + 1].current| == 1 && states[i + 1].current[0] == Some(states[0].queues[0][i].(state := Running))
  {
    var m, k := StaysBalanced(states, choices, n);
    ServedInOrder(states, choices, i, i);
    m, k := StaysBalanced(states, choices, i);
    Rotates(states, choices, i, m, k);
  }
}

/** The scheduler as the kernel runs it: tables changed in place, each operation one step of the model. */
module SmpScheduler {
  import opened Common
  import opened Scheduler

  class SmpScheduler {
    var runQueues: seq<seq<Thread>>
    var current: seq<Option<Thread>>
    var numCpus: nat
    var initialized: bool
    var sleepQueue: map<nat, seq<nat>>
    var ticks: nat
    var nextPid: nat
    /** The batches that timer ticks have taken off the sleep queue but not yet woken. */
    ghost var waking: seq<set<nat>>

    ghost function Model(): Sched
      reads this
    {
      Sched(runQueues, current, sleepQueue, waking, ticks, nextPid)
    }

    ghost predicate Valid()
      reads this
    {
      |runQueues| == numCpus && (!initialized ==> numCpus == 0) && Inv(Model())
    }

    constructor ()
      ensures Valid() && Model() == START && !initialized
    {
      runQueues, current, numCpus, initialized := [], [], 0, false;
      sleepQueue, ticks, nextPid, waking := map[], 0, 1, [];
      new;
      assert forall pid: nat :: Occurrences(START, pid) == 0;
    }

    method Initialize(cpus: nat)
      requires Valid() && !initialized
      modifies this
      ensures Valid() && initialized && numCpus == cpus && Step(old(Model()), Init(cpus), Model())
    {
      ghost var s := Model();
      numCpus := cpus;
      runQueues, current := [], [];
      for i := 0 to cpus
        invariant runQueues == seq(i, j => []) && current == seq(i, j => Some(IDLE))
        invariant numCpus == cpus && Model() == s.(queues := runQueues, current := current)
      {
        runQueues := runQueues + [[]];
        current := current + [Some(IDLE)];
      }
      initialized := true;
      StepKeepsInv(s, Init(cpus), Model());
    }

    method SpawnKernelThread() returns (pid: nat)
      requires Valid()
      modifies this
      ensures Valid() && pid == old(nextPid) && Step(old(Model()), Spawn, Model())
      ensures Occurrences(Model(), pid) == if numCpus > 0 then 1 else 0
    {
      ghost var s := Model();
      pid := nextPid;
      nextPid := nextPid + 1;
      if runQueues != [] {
        var target := LeastLoadedCpu(runQueues);
        var t := Thread(pid, Ready, 0);
        runQueues := runQueues[target := runQueues[target] + [t]];
        CountAppend(s.queues[target], t, pid);
        TotalUpdate(s.queues, s.current, |s.queues|, target, s.queues[target] + [t], s.current[target], pid);
        assert s.current[target := s.current[target]] == s.current;
        assert Occurrences(s, pid) == 0;
        assert IsLeastLoaded(s.queues, target);
      }
      StepKeepsInv(s, Spawn, Model());
    }

    /** Removes the thread to run next from its queue: the local minimum, or one stolen from the busiest CPU. */
    method TakeNext(cpu: nat) returns (next: Option<Thread>, ghost choice: Choice)
      requires cpu < numCpus == |runQueues|
      modifies `runQueues
      ensures Chosen(old(runQueues), cpu, choice) && (next.Some? <==> choice.Pick?)
      ensures choice.Nothing? ==> runQueues == old(runQueues)
      ensures choice.Pick? ==> next.value == old(runQueues)[choice.from][choice.index]
      ensures choice.Pick? ==>
                runQueues == old(runQueues)[choice.from := Without(old(runQueues)[choice.from], choice.index)]
    {
      var local := PickLocal(runQueues[cpu]);
      if local.Some? {
        var i := local.value;
        next, choice := Some(runQueues[cpu][i]), Pick(cpu, i);
        runQueues := runQueues[cpu := Without(runQueues[cpu], i)];
        return;
      }
      choice := Nothing;
      var victim := PickVictim(runQueues, cpu);
      if victim.None? {
        return None, Nothing;
      }
      var v := victim.value;
      var ready := CountReady(runQueues[v]);
      if ready <= 1 {
        return None, Nothing;
      }
      var last := PickLast(runQueues[v]);
      ReadyCountZero(runQueues[v]);
      var i := last.value;
      next, choice := Some(runQueues[v][i]), Pick(v, i);
      runQueues := runQueues[v := Without(runQueues[v], i)];
    }

    /** The running thread pays for its slice. */
    method Account(cpu: nat)
      requires cpu < |current| && current[cpu].Some?
      modifies `current
      ensures current == old(current)[cpu := Some(Charged(old(current)[cpu].value))]
    {
      var curr := current[cpu].value;
      if curr.pid != 0 {
        current := current[cpu := Some(curr.(vruntime := Charge(curr.vruntime)))];
      }
    }

    /** Queues the thread that ran if it is Running or Blocked, and not the idle thread. */
    method PutBack(cpu: nat, curr: Thread)
      requires cpu < |runQueues|
      modifies `runQueues
      ensures runQueues == old(runQueues)[cpu := Requeue(old(runQueues)[cpu], curr)]
    {
      if curr.pid != 0 {
        if curr.state == Running {
          runQueues := runQueues[cpu := runQueues[cpu] + [curr.(state := Ready)]];
        } else if curr.state == Blocked {
          runQueues := runQueues[cpu := runQueues[cpu] + [curr]];
        }
      }
    }

    method ScheduleOn(cpu: nat) returns (ghost choice: Choice)
      requires Valid()
      modifies this
      ensures Valid()
      ensures cpu >= numCpus ==> unchanged(this)
      ensures cpu < numCpus ==> Step(old(Model()), Schedule(cpu, choice), Model())
    {
      choice := Nothing;
      if !initialized || cpu >= numCpus {
        return;
      }
      ghost var s := Model();
      choice := SwitchOn(cpu);
      StepKeepsInv(s, Schedule(cpu, choice), Model());
    }

    method SwitchOn(cpu: nat) returns (ghost choice: Choice)
      requires cpu < numCpus == |runQueues| == |current| && current[cpu].Some?
      modifies `runQueues, `current
      ensures Chosen(old(runQueues), cpu, choice) && Model() == Switch(old(Model()), cpu, choice)
    {
      Account(cpu);
      var curr := current[cpu].value;
      var next;
      next, choice := TakeNext(cpu);
      if next.Some? {
        PutBack(cpu, curr);
        current := current[cpu := Some(next.value.(state := Running))];
      }
    }

    /** The first section of `block_current_until`: marks the running thread Blocked. */
    method MarkCurrentBlocked(cpu: nat)
      requires Valid() && cpu < numCpus
      modifies `current
      ensures Valid() && Step(old(Model()), MarkCurrent(cpu, Blocked), Model())
    {
      ghost var s := Model();
      current := current[cpu := Some(current[cpu].value.(state := Blocked))];
      StepKeepsInv(s, MarkCurrent(cpu, Blocked), Model());
    }

    /** Marks the running thread Dead; a CPU the scheduler does not know is ignored. */
    method MarkCurrentDead(cpu: nat)
      requires Valid()
      modifies `current
      ensures Valid()
      ensures if cpu < numCpus then Step(old(Model()), MarkCurrent(cpu, Dead), Model()) else Model() == old(Model())
    {
      ghost var s := Model();
      if cpu < numCpus {
        current := current[cpu := Some(current[cpu].value.(state := Dead))];
        StepKeepsInv(s, MarkCurrent(cpu, Dead), Model());
      }
    }

    method RegisterWakeup(pid: nat, at: nat)
      requires Valid()
      modifies `sleepQueue
      ensures Valid() && Step(old(Model()), Register(pid, at), Model())
    {
      ghost var s := Model();
      sleepQueue := sleepQueue[at := (if at in sleepQueue then sleepQueue[at] else []) + [pid]];
      StepKeepsInv(s, Register(pid, at), Model());
    }

    /** An uninterrupted `block_current_until`: three steps, the thread being queued exactly if another was chosen. */
    method BlockCurrentUntil(cpu: nat, at: nat)
      returns (ghost choice: Choice, ghost states: seq<Sched>, ghost events: seq<Event>)
      requires Valid() && cpu < numCpus
      modifies this
      ensures Valid() && Chosen(old(runQueues), cpu, choice) && Model() == Sleep(old(Model()), cpu, at, choice)
      ensures events == [MarkCurrent(cpu, Blocked), Register(old(current)[cpu].value.pid, at), Schedule(cpu, choice)]
      ensures IsRun(states, events) && states[0] == old(Model()) && states[3] == Model()
    {
      ghost var s := Model();
      var pid := current[cpu].value.pid;
      MarkCurrentBlocked(cpu);
      ghost var s1 := Model();
      RegisterWakeup(pid, at);
      ghost var s2 := Model();
      choice := ScheduleOn(cpu);
      states, events := [s, s1, s2, Model()], [MarkCurrent(cpu, Blocked), Register(pid, at), Schedule(cpu, choice)];
      assert StepAt(states, events, 0) && StepAt(states, events, 1) && StepAt(states, events, 2);
    }

    /** Takes all entries with a deadline up to `now` off the sleep queue, earliest first. */
    method TakeDue(now: nat) returns (toWake: seq<nat>)
      modifies `sleepQueue
      ensures sleepQueue == Later(old(sleepQueue), now)
      ensures forall pid :: pid in toWake <==> IsDue(old(sleepQueue), now, pid)
    {
      ghost var before := sleepQueue;
      toWake := [];
      while true
        invariant forall at :: at in sleepQueue ==> at in before && sleepQueue[at] == before[at]
        invariant forall at :: at in before && at !in sleepQueue ==> at <= now
        invariant forall pid :: pid in toWake <==> exists at {:trigger before[at]} ::
                    at in before && at !in sleepQueue && pid in before[at]
        decreases |sleepQueue|
      {
        var first := Earliest(sleepQueue);
        if first.None? || first.value > now {
          break;
        }
        ghost var was, woke := sleepQueue, toWake;
        var pids := sleepQueue[first.value];
        toWake := toWake + pids;
        sleepQueue := sleepQueue - {first.value};
        RemovedSmaller(was, first.value);
        forall pid
          ensures pid in toWake <==> exists at {:trigger before[at]} ::
                    at in before && at !in sleepQueue && pid in before[at]
        {
          if pid in toWake && pid !in woke {
            assert pid in before[first.value];
          }
        }
      }
    }

    /** Wakes the Blocked thread with this pid, if one is queued. */
    method WakePid(pid: nat)
      requires Valid()
      modifies `runQueues
      ensures Valid() && Woken(old(runQueues), runQueues, {pid})
    {
      for cpu := 0 to numCpus
        invariant runQueues == old(runQueues)
        invariant NotSleeping(runQueues, cpu, 0, pid)
      {
        for i := 0 to |runQueues[cpu]|
          invariant runQueues == old(runQueues)
          invariant NotSleeping(runQueues, cpu, i, pid)
        {
          var t := runQueues[cpu][i];
          if t.pid == pid && t.state == Blocked {
            runQueues := runQueues[cpu := runQueues[cpu][i := t.(state := Ready)]];
            OnlyThere(old(Model()), cpu, i);
            WokenKeepsInv(old(Model()), Model(), {pid});
            return;
          }
        }
      }
    }

    /** Makes the Blocked thread with this pid Ready, in its queue or where it runs; false if there is none. */
    method WakeTid(pid: nat) returns (found: bool)
      requires Valid() && pid > 0
      modifies `runQueues, `current
      ensures Valid() && Step(old(Model()), Event.WakeTid(pid), Model())
      ensures found <==> Queued(old(Model()), pid, Blocked) || exists c: nat :: BlockedOnCpu(old(Model()), c, pid)
    {
      ghost var s := Model();
      for cpu := 0 to numCpus
        invariant Model() == s && NotSleeping(runQueues, cpu, 0, pid)
        invariant forall c: nat :: c < cpu ==> !BlockedOnCpu(s, c, pid)
      {
        if current[cpu].value.pid == pid && current[cpu].value.state == Blocked {
          assert BlockedOnCpu(s, cpu, pid);
          current := current[cpu := Some(current[cpu].value.(state := Ready))];
          WokenWhereItRuns(s, Model(), cpu, pid);
          return true;
        }
        for i := 0 to |runQueues[cpu]|
          invariant Model() == s && NotSleeping(runQueues, cpu, i, pid)
        {
          var t := runQueues[cpu][i];
          if t.pid == pid && t.state == Blocked {
            runQueues := runQueues[cpu := runQueues[cpu][i := t.(state := Ready)]];
            WokenInQueue(s, Model(), cpu, i);
            return true;
          }
        }
      }
      NoneWoken(s, pid);
      return false;
    }

    /** The second section of `tick`: the entries due at `now` leave the sleep queue. */
    method Expire(now: nat) returns (toWake: seq<nat>)
      requires Valid() && now <= ticks
      modifies `sleepQueue, `waking
      ensures Valid() && waking == old(waking) + [ToSet(toWake)]
      ensures Step(old(Model()), Event.Expire(now, ToSet(toWake)), Model())
    {
      ghost var s := Model();
      toWake := TakeDue(now);
      waking := waking + [ToSet(toWake)];
      StepKeepsInv(s, Event.Expire(now, ToSet(toWake)), Model());
    }

    /** The last section of `tick`: exactly the queued Blocked threads of one batch turn Ready. */
    method WakeAll(toWake: seq<nat>, ghost batch: nat)
      requires Valid() && batch < |waking| && waking[batch] == ToSet(toWake)
      modifies `runQueues, `waking
      ensures Valid() && Step(old(Model()), Wake(batch), Model())
    {
      ghost var before := Model();
      for k := 0 to |toWake|
        invariant Valid() && Model() == before.(queues := runQueues)
        invariant Woken(before.queues, runQueues, ToSet(toWake[..k]))
      {
        ghost var was := runQueues;
        WakePid(toWake[k]);
        assert ToSet(toWake[..k + 1]) == ToSet(toWake[..k]) + {toWake[k]};
        WokenTwice(before.queues, was, runQueues, ToSet(toWake[..k]), toWake[k]);
      }
      assert toWake[..|toWake|] == toWake;
      waking := waking[..batch] + waking[batch + 1..];
      StepKeepsInv(before, Wake(batch), Model());
    }

    /** An uninterrupted timer tick: the counter, the sleep queue and the run queues, each its own step. */
    method TimerTick() returns (ghost states: seq<Sched>, ghost events: seq<Event>)
      requires Valid()
      modifies this
      ensures Valid() && |events| == 3 && IsRun(states, events) && states[0] == old(Model()) && states[3] == Model()
      ensures events[0] == Advance && events[1].Expire? && events[1].now == ticks == old(ticks) + 1
      ensures events[2] == Wake(|old(waking)|) && waking == old(waking)
    {
      ghost var s := Model();
      ticks := ticks + 1;
      ghost var s1 := Model();
      StepKeepsInv(s, Advance, s1);
      var toWake := Expire(ticks);
      ghost var s2 := Model();
      WakeAll(toWake, |s.waking|);
      states, events := [s, s1, s2, Model()], [Advance, Event.Expire(ticks, ToSet(toWake)), Wake(|s.waking|)];
      assert StepAt(states, events, 0) && StepAt(states, events, 1) && StepAt(states, events, 2);
    }

    /** Marks every thread with one of these pids Dead, wherever it is. */
    method MarkThreadsDead(pids: seq<nat>)
      requires Valid()
      modifies this
      ensures Valid() && Step(old(Model()), MarkDead(ToSet(pids)), Model())
    {
      ghost var s := Model();
      for cpu := 0 to numCpus
        invariant |runQueues| == |current| == numCpus == |s.queues| &&
                  Model() == s.(queues := runQueues, current := current)
        invariant initialized == old(initialized) && numCpus == old(numCpus)
        invariant forall c {:trigger runQueues[c]} :: 0 <= c < numCpus ==> |runQueues[c]| == |s.queues[c]|
        invariant forall c, i {:trigger runQueues[c][i]} :: 0 <= c < numCpus && 0 <= i < |runQueues[c]| ==>
                    var t := s.queues[c][i];
                    runQueues[c][i] == if c < cpu && t.pid in pids then t.(state := Dead) else t
        invariant forall c {:trigger current[c]} :: 0 <= c < numCpus ==>
                    var t := s.current[c];
                    current[c] == if c < cpu && t.Some? && t.value.pid in pids then Some(t.value.(state := Dead)) else t
      {
        if current[cpu].Some? && current[cpu].value.pid in pids {
          current := current[cpu := Some(current[cpu].value.(state := Dead))];
        }
        var q := KillQueue(runQueues[cpu], pids);
        runQueues := runQueues[cpu := q];
      }
      StepKeepsInv(s, MarkDead(ToSet(pids)), Model());
    }

    /** Drops a pid from every deadline's list; the deadlines stay. */
    method CancelWakeup(pid: nat)
      requires Valid()
      modifies `sleepQueue
      ensures Valid() && Step(old(Model()), Cancel(pid), Model())
    {
      ghost var s := Model();
      var keys := sleepQueue.Keys;
      while keys != {}
        invariant keys <= sleepQueue.Keys == s.sleepers.Keys
        invariant forall at {:trigger sleepQueue[at]} :: at in sleepQueue && at in keys ==>
                    sleepQueue[at] == s.sleepers[at]
        invariant forall at {:trigger sleepQueue[at]} :: at in sleepQueue && at !in keys ==>
                    sleepQueue[at] == Except(s.sleepers[at], pid)
      {
        var at :| at in keys;
        var kept := Retain(sleepQueue[at], pid);
        sleepQueue := sleepQueue[at := kept];
        keys := keys - {at};
      }
      assert sleepQueue == Cancelled(s.sleepers, pid);
      StepKeepsInv(s, Cancel(pid), Model());
    }
  }

  method KillQueue(q: seq<Thread>, pids: seq<nat>) returns (r: seq<Thread>)
    ensures |r| == |q|
    ensures forall i {:trigger r[i]} :: 0 <= i < |q| ==> r[i] == if q[i].pid in pids then q[i].(state := Dead) else q[i]
  {
    r := q;
    for i := 0 to |q|
      invariant |r| == |q|
      invariant forall j {:trigger r[j]} :: 0 <= j < |q| ==>
                  r[j] == if j < i && q[j].pid in pids then q[j].(state := Dead) else q[j]
    {
      if r[i].pid in pids {
        r := r[i := r[i].(state := Dead)];
      }
    }
  }

  method Retain(pids: seq<nat>, pid: nat) returns (r: seq<nat>)
    ensures r == Except(pids, pid)
  {
    r := [];
    for i := 0 to |pids|
      invariant r == Except(pids[..i], pid)
    {
      assert pids[..i + 1][..i] == pids[..i];
      if pids[i] != pid {
        r := r + [pids[i]];
      }
    }
    assert pids[..|pids|] == pids;
  }

  method Earliest(sleepers: map<nat, seq<nat>>) returns (r: Option<nat>)
    ensures r.None? <==> sleepers == map[]
    ensures r.Some? ==> r.value in sleepers && forall at :: at in sleepers ==> r.value <= at
  {
    var keys := sleepers.Keys;
    if keys == {} {
      return None;
    }
    var least :| least in keys;
    var rest := keys - {least};
    while rest != {}
      invariant least in keys && rest <= keys
      invariant forall at :: at in keys && at !in rest ==> least <= at
    {
      var at :| at in rest;
      rest := rest - {at};
      if at < least {
        least := at;
      }
    }
    return Some(least);
  }

  lemma RemovedSmaller(sleepers: map<nat, seq<nat>>, at: nat)
    requires at in sleepers
    ensures |sleepers - {at}| < |sleepers|
  {
    assert (sleepers - {at}).Keys == sleepers.Keys - {at};
  }

  /** No Blocked thread with this pid comes before position `i` of CPU `c`. */
  ghost predicate NotSleeping(queues: seq<seq<Thread>>, c: nat, i: nat, pid: nat) {
    forall d, j {:trigger queues[d][j]} :: 0 <= d < |queues| && 0 <= j < |queues[d]| && (d < c || (d == c && j < i)) ==>
      !(queues[d][j].pid == pid && queues[d][j].state == Blocked)
  }

  lemma OnlyThere(s: Sched, c: nat, i: nat)
    requires Inv(s) && c < |s.queues| && i < |s.queues[c]|
    ensures forall d, j {:trigger s.queues[d][j]} :: 0 <= d < |s.queues| && 0 <= j < |s.queues[d]| ==>
              s.queues[d][j].pid == s.queues[c][i].pid ==> d == c && j == i
  {
    forall d, j | 0 <= d < |s.queues| && 0 <= j < |s.queues[d]| && s.queues[d][j].pid == s.queues[c][i].pid
      ensures d == c && j == i
    {
      OnePlace(s, c, i, d, j);
    }
  }

  lemma WokenWhereItRuns(s: Sched, s': Sched, cpu: nat, pid: nat)
    requires Inv(s) && pid > 0 && BlockedOnCpu(s, cpu, pid)
    requires s' == s.(current := s.current[cpu := Some(s.current[cpu].value.(state := Ready))])
    ensures Step(s, Event.WakeTid(pid), s') && Inv(s')
  {
    forall c, i | 0 <= c < |s.queues| && 0 <= i < |s.queues[c]| ensures s.queues[c][i].pid != pid {
      CurrentNotQueued(s, cpu, c, i);
    }
    forall c: nat | Current(s, c, pid) ensures c == cpu {
      CurrentOnce(s, c, cpu, pid);
    }
    assert WokenCurrent(s.current, s'.current, pid) by {
      forall c: nat | c < |s.current| && c != cpu ensures s.current[c].value.pid != pid {
        assert !Current(s, c, pid);
      }
    }
    StepKeepsInv(s, Event.WakeTid(pid), s');
  }

  lemma NoneWoken(s: Sched, pid: nat)
    requires Inv(s) && pid > 0 && NotSleeping(s.queues, |s.queues|, 0, pid)
    requires forall c: nat :: c < |s.current| ==> !BlockedOnCpu(s, c, pid)
    ensures Step(s, Event.WakeTid(pid), s) && !Queued(s, pid, Blocked)
  {
    forall c: nat | c < |s.current| && s.current[c].value.pid == pid ensures s.current[c].value.state != Blocked {
      assert !BlockedOnCpu(s, c, pid);
    }
  }

  lemma WokenInQueue(s: Sched, s': Sched, cpu: nat, i: nat)
    requires Inv(s) && cpu < |s.queues| && i < |s.queues[cpu]| && s.queues[cpu][i].state == Blocked
    requires s' == s.(queues := s.queues[cpu := s.queues[cpu][i := s.queues[cpu][i].(state := Ready)]])
    ensures Step(s, Event.WakeTid(s.queues[cpu][i].pid), s') && Inv(s') && Queued(s, s.queues[cpu][i].pid, Blocked)
  {
    var pid := s.queues[cpu][i].pid;
    assert Queueable(s.queues[cpu][i]);
    OnlyThere(s, cpu, i);
    forall c: nat | c < |s.current| ensures s.current[c].value.pid != pid {
      CurrentNotQueued(s, c, cpu, i);
    }
    assert Woken(s.queues, s'.queues, {pid});
    StepKeepsInv(s, Event.WakeTid(pid), s');
  }

  lemma WokenKeepsInv(s: Sched, s': Sched, pids: set<nat>)
    requires Inv(s) && s' == s.(queues := s'.queues) && Woken(s.queues, s'.queues, pids)
    ensures Inv(s')
  {
    SamePidsKeepUnique(s, s');
  }

  lemma WokenTwice(a: seq<seq<Thread>>, b: seq<seq<Thread>>, c: seq<seq<Thread>>, pids: set<nat>, pid: nat)
    requires Woken(a, b, pids) && Woken(b, c, {pid})
    ensures Woken(a, c, pids + {pid})
  {
  }
}

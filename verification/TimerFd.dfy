/** Timer file descriptors (kernel/src/fs/vfs.rs, kernel/src/fs/mod.rs). */
module TimerFd {
  import opened Arithmetic
  import opened Common

  function SatAdd(a: nat, b: nat): nat {
    Min(a + b, U64_MAX)
  }

  function SatMul(a: nat, b: nat): nat {
    Min(a * b, U64_MAX)
  }

  // The reference: one period at a time.

  /** How many deadlines of an armed timer have come by `now`. Deadline 0 means disarmed. */
  function Expirations(next: nat, interval: nat, now: nat): nat
    decreases Max(now - next + 1, 0)
  {
    if next == 0 || next > now then 0
    else if interval == 0 then 1
    else 1 + Expirations(next + interval, interval, now)
  }

  /** The first deadline after `now`; 0 when a one-shot timer has fired. */
  function Following(next: nat, interval: nat, now: nat): nat
    decreases Max(now - next + 1, 0)
  {
    if next == 0 || next > now then next
    else if interval == 0 then 0
    else Following(next + interval, interval, now)
  }

  lemma DivStep(d: nat, i: nat)
    requires 0 < i <= d
    ensures d / i == (d - i) / i + 1
  {
    MulNext((d - i) / i, i);
    DivUnique(d, i, (d - i) / i + 1, (d - i) % i);
  }

  /** The quotient the code computes is the number of deadlines, and its product leads to the next one. */
  lemma {:induction false} CatchUpIs(next: nat, interval: nat, now: nat)
    requires 0 < next <= now && interval > 0
    ensures Expirations(next, interval, now) == (now - next) / interval + 1
    ensures Following(next, interval, now) == next + ((now - next) / interval + 1) * interval
    decreases now - next
  {
    if next + interval > now {
      DivUnique(now - next, interval, 0, now - next);
    } else {
      CatchUpIs(next + interval, interval, now);
      DivStep(now - next, interval);
      MulNext((now - next) / interval, interval);
    }
  }

  /** The following deadline is the first one after `now`, in phase with the old one. */
  lemma {:induction false} FollowingIs(next: nat, interval: nat, now: nat) returns (k: nat)
    requires 0 < next <= now && interval > 0
    ensures now < Following(next, interval, now) <= now + interval
    ensures Following(next, interval, now) == next + k * interval
    decreases now - next
  {
    if next + interval > now {
      k := 1;
    } else {
      k := FollowingIs(next + interval, interval, now);
      MulNext(k, interval);
      k := k + 1;
    }
  }

  /** Counting up to `early` and then from there on counts the same. */
  lemma {:induction false} ExpirationsSplit(next: nat, interval: nat, early: nat, late: nat)
    requires early <= late
    ensures Expirations(next, interval, late) ==
              Expirations(next, interval, early) + Expirations(Following(next, interval, early), interval, late)
    ensures Following(Following(next, interval, early), interval, late) == Following(next, interval, late)
    decreases Max(early - next + 1, 0)
  {
    if next != 0 && next <= early && interval > 0 {
      ExpirationsSplit(next + interval, interval, early, late);
    }
  }

  /** Nothing the code computes for this moment exceeds 64 bits. */
  ghost predicate Fits(next: nat, interval: nat, pending: nat, now: nat) {
    now + interval <= U64_MAX && pending + Expirations(next, interval, now) <= U64_MAX
  }

  /** Times at which a timer is read, in order. */
  ghost predicate InOrder(times: seq<nat>) {
    forall i, j :: 0 <= i <= j < |times| ==> times[i] <= times[j]
  }

  lemma FollowingFits(next: nat, interval: nat, now: nat)
    requires next <= U64_MAX && now + interval <= U64_MAX
    ensures Following(next, interval, now) <= U64_MAX
  {
    if 0 < next <= now && interval > 0 {
      var k := FollowingIs(next, interval, now);
    }
  }

  class TimerFd {
    var nextDeadline: nat
    var intervalTicks: nat
    var pendingExpirations: nat

    /** The fields are 64-bit words. */
    ghost predicate Valid()
      reads this
    {
      nextDeadline <= U64_MAX && intervalTicks <= U64_MAX && pendingExpirations <= U64_MAX
    }

    constructor ()
      ensures Valid() && nextDeadline == intervalTicks == pendingExpirations == 0
    {
      nextDeadline, intervalTicks, pendingExpirations := 0, 0, 0;
    }

    /** Catches up with the clock by one division, saturating at the word size. */
    method CatchUp(now: nat)
      requires Valid()
      modifies `nextDeadline, `pendingExpirations
      ensures Valid()
      ensures pendingExpirations == SatAdd(old(pendingExpirations), Expirations(old(nextDeadline), intervalTicks, now))
      ensures nextDeadline == Min(Following(old(nextDeadline), intervalTicks, now), U64_MAX)
    {
      if nextDeadline != 0 && now >= nextDeadline {
        if intervalTicks == 0 {
          pendingExpirations := SatAdd(pendingExpirations, 1);
          nextDeadline := 0;
        } else {
          CatchUpIs(nextDeadline, intervalTicks, now);
          ghost var k := FollowingIs(nextDeadline, intervalTicks, now);
          var delta := now - nextDeadline;
          var periods := delta / intervalTicks + 1;
          pendingExpirations := SatAdd(pendingExpirations, periods);
          nextDeadline := SatAdd(nextDeadline, SatMul(periods, intervalTicks));
        }
      }
    }

    /** One attempt to read: the expirations so far, or nothing yet. */
    method ReadAt(now: nat) returns (r: Option<nat>)
      requires Valid()
      modifies `nextDeadline, `pendingExpirations
      ensures Valid()
      ensures var n := SatAdd(old(pendingExpirations), Expirations(old(nextDeadline), intervalTicks, now));
              r == if n > 0 then Some(n) else None
      ensures pendingExpirations == 0
      ensures nextDeadline == Min(Following(old(nextDeadline), intervalTicks, now), U64_MAX)
    {
      CatchUp(now);
      if pendingExpirations > 0 {
        r := Some(pendingExpirations);
        pendingExpirations := 0;
        return;
      }
      return None;
    }

    /** Unless a word overflows, any series of reads reports in total what a single read at the end would have. */
    method ReadSeries(times: seq<nat>) returns (total: nat)
      requires Valid() && |times| > 0 && InOrder(times)
      modifies `nextDeadline, `pendingExpirations
      ensures Valid() && pendingExpirations == 0
      ensures Fits(old(nextDeadline), intervalTicks, old(pendingExpirations), times[|times| - 1]) ==>
                && total == old(pendingExpirations) + Expirations(old(nextDeadline), intervalTicks, times[|times| - 1])
                && nextDeadline == Following(old(nextDeadline), intervalTicks, times[|times| - 1])
    {
      total := 0;
      ghost var first, last := nextDeadline, times[|times| - 1];
      ghost var fits := Fits(nextDeadline, intervalTicks, pendingExpirations, last);
      for i := 0 to |times|
        invariant Valid() && (i > 0 ==> pendingExpirations == 0)
        invariant i == 0 ==> nextDeadline == first && pendingExpirations == old(pendingExpirations) && total == 0
        invariant fits && i > 0 ==> nextDeadline == Following(first, intervalTicks, times[i - 1])
        invariant fits && i > 0 ==> total == old(pendingExpirations) + Expirations(first, intervalTicks, times[i - 1])
      {
        if fits {
          if i > 0 {
            ExpirationsSplit(first, intervalTicks, times[i - 1], last);
            ExpirationsSplit(first, intervalTicks, times[i - 1], times[i]);
          }
          ExpirationsSplit(nextDeadline, intervalTicks, times[i], last);
          FollowingFits(nextDeadline, intervalTicks, times[i]);
        }
        var r := ReadAt(times[i]);
        total := total + if r.Some? then r.value else 0;
      }
    }

    /** Arms the timer and reads it later: what is reported is `FirstRead`, unless the deadline does not fit a word. */
    method SetAndRead(now: nat, absolute: bool, value: nat, interval: nat, later: nat) returns (r: Option<nat>)
      requires value <= U64_MAX && interval <= U64_MAX
      modifies this
      ensures Valid()
      ensures ArmedDeadline(now, absolute, value, interval) <= U64_MAX ==>
                var n := Min(FirstRead(now, absolute, value, interval, later), U64_MAX);
                r == if n > 0 then Some(n) else None
    {
      SetTime(now, absolute, value, interval);
      r := ReadAt(later);
    }

    /** Arms, re-arms or disarms the timer. */
    method SetTime(now: nat, absolute: bool, value: nat, interval: nat)
      requires value <= U64_MAX && interval <= U64_MAX
      modifies this
      ensures Valid() && intervalTicks == interval
      ensures nextDeadline == Min(ArmedDeadline(now, absolute, value, interval), U64_MAX)
      ensures pendingExpirations == if absolute && 0 < value <= now then 1 else 0
    {
      intervalTicks, pendingExpirations := interval, 0;
      if value == 0 {
        nextDeadline := 0;
      } else if absolute {
        nextDeadline := value;
        if nextDeadline <= now {
          pendingExpirations := 1;
          if intervalTicks > 0 {
            CatchUpIs(nextDeadline, intervalTicks, now);
            ghost var k := FollowingIs(nextDeadline, intervalTicks, now);
            var periods := (now - nextDeadline) / intervalTicks + 1;
            nextDeadline := SatAdd(nextDeadline, SatMul(periods, intervalTicks));
          }
        }
      } else {
        nextDeadline := SatAdd(now, value);
      }
    }
  }

  /** The deadline `timerfd_settime` leaves behind. */
  function ArmedDeadline(now: nat, absolute: bool, value: nat, interval: nat): nat {
    if value == 0 then 0
    else if !absolute then now + value
    else if interval > 0 then Following(value, interval, now)
    else value
  }

  /** The deadline that was asked for. */
  function Requested(now: nat, absolute: bool, value: nat): nat {
    if value == 0 then 0 else if absolute then value else now + value
  }

  /** What the first read at `later` reports, by the state `timerfd_settime` left behind. */
  function FirstRead(now: nat, absolute: bool, value: nat, interval: nat, later: nat): nat {
    var early := if absolute && 0 < value <= now then 1 else 0;
    early + Expirations(ArmedDeadline(now, absolute, value, interval), interval, later)
  }

  /**
   * The first read reports the deadlines that have come exactly unless an absolute deadline was already past and
   * either the timer is one-shot or a whole period had gone by.
   */
  lemma FirstReadExact(now: nat, absolute: bool, value: nat, interval: nat, later: nat)
    requires now <= later
    ensures FirstRead(now, absolute, value, interval, later) ==
              Expirations(Requested(now, absolute, value), interval, later)
            <==> !(absolute && 0 < value <= now) || (interval > 0 && now - value < interval)
  {
    if absolute && 0 < value <= now && interval > 0 {
      ExpirationsSplit(value, interval, now, later);
      CatchUpIs(value, interval, now);
      if now - value < interval {
        DivUnique(now - value, interval, 0, now - value);
      } else {
        DivStep(now - value, interval);
      }
    }
  }

  /** A one-shot deadline in the past is reported twice; three missed periods are reported as one. */
  lemma PastDeadlines()
    ensures FirstRead(10, true, 5, 0, 10) == 2 && Expirations(5, 0, 10) == 1
    ensures FirstRead(10, true, 4, 3, 10) == 1 && Expirations(4, 3, 10) == 3
  {
    assert Expirations(13, 3, 10) == 0;
    assert Expirations(10, 3, 10) == 1;
    assert Expirations(7, 3, 10) == 2;
    assert Following(10, 3, 10) == 13;
    assert Following(7, 3, 10) == 13;
    assert Following(4, 3, 10) == 13;
  }
}

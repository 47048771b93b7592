/**
 The interval timer: it adds up differences of a 32-bit millisecond clock that
 wraps, and fires when the sum reaches the caller's cycle.
 */
module IntervalTimer {
  import opened Modular

  /** The static variables that matter between two calls. */
  datatype State = State(cur: nat, cum: nat)

  function Tick(s: State, reading: nat, cycle: nat): (State, bool) {
    var cum := (s.cum + (reading - s.cur) % TWO32) % TWO32;
    if cycle > cum then (State(reading, cum), false) else (State(reading, 0), true)
  }

  /** True times: `t[0]` when the static was initialised, `t[k]` at call `k`; the clock shows them modulo 2^32. */
  predicate Ascending(t: seq<nat>) { forall i, j :: 0 <= i <= j < |t| ==> t[i] <= t[j] }

  function After(t: seq<nat>, cycles: seq<nat>, k: nat): State
    requires k < |t| && k <= |cycles|
  {
    if k == 0 then State(t[0] % TWO32, 0) else Tick(After(t, cycles, k - 1), t[k] % TWO32, cycles[k - 1]).0
  }

  predicate Fires(t: seq<nat>, cycles: seq<nat>, k: nat)
    requires 0 < k < |t| && k <= |cycles|
  {
    Tick(After(t, cycles, k - 1), t[k] % TWO32, cycles[k - 1]).1
  }

  /** The last call up to `k` that fired, or 0. */
  function LastFiring(t: seq<nat>, cycles: seq<nat>, k: nat): (l: nat)
    requires k < |t| && k <= |cycles|
    ensures l <= k
  {
    if k == 0 then 0 else if Fires(t, cycles, k) then k else LastFiring(t, cycles, k - 1)
  }

  function Firings(t: seq<nat>, cycles: seq<nat>, k: nat): nat
    requires k < |t| && k <= |cycles|
  {
    if k == 0 then 0 else Firings(t, cycles, k - 1) + if Fires(t, cycles, k) then 1 else 0
  }

  /** Differences modulo 2^32 add up to the difference of the true times modulo 2^32. */
  lemma WrappedSum(a: nat, b: nat, c: nat)
    requires a <= b <= c
    ensures ((b - a) % TWO32 + (c % TWO32 - b % TWO32) % TWO32) % TWO32 == (c - a) % TWO32
  {
    WrappedDifference(b, c);
    var x, y := b - a, c - b;
    var r := (x % TWO32 + y % TWO32) % TWO32;
    ModUnique(c - a, TWO32, x / TWO32 + y / TWO32 + (x % TWO32 + y % TWO32) / TWO32, r);
  }

  lemma WrappedDifference(b: nat, c: nat)
    requires b <= c
    ensures (c % TWO32 - b % TWO32) % TWO32 == (c - b) % TWO32
  {
    var r := (c % TWO32 - b % TWO32) % TWO32;
    ModUnique(c - b, TWO32, c / TWO32 - b / TWO32 + (c % TWO32 - b % TWO32) / TWO32, r);
  }

  /** One call, in true times: the sum starts again from the call that fires. */
  lemma TickInTrueTime(s: State, last: nat, before: nat, now: nat, cycle: nat)
    requires last <= before <= now && s == State(before % TWO32, (before - last) % TWO32)
    ensures var (s', fired) := Tick(s, now % TWO32, cycle);
            && (fired <==> (now - last) % TWO32 >= cycle)
            && s' == State(now % TWO32, (now - if fired then now else last) % TWO32)
  {
    WrappedSum(last, before, now);
  }

  lemma {:induction false} SumSinceFiring(t: seq<nat>, cycles: seq<nat>, k: nat)
    requires Ascending(t) && k < |t| && k <= |cycles|
    ensures After(t, cycles, k) == State(t[k] % TWO32, (t[k] - t[LastFiring(t, cycles, k)]) % TWO32)
  {
    if k > 0 {
      SumSinceFiring(t, cycles, k - 1);
      TickInTrueTime(After(t, cycles, k - 1), t[LastFiring(t, cycles, k - 1)], t[k - 1], t[k], cycles[k - 1]);
    }
  }

  /** At every call, whatever the gaps and cycles: the timer compares the cycle with the
      true time since its last firing, modulo 2^32. */
  lemma TimerSees(t: seq<nat>, cycles: seq<nat>, k: nat)
    requires Ascending(t) && 0 < k < |t| && k <= |cycles|
    ensures Fires(t, cycles, k) <==> (t[k] - t[LastFiring(t, cycles, k - 1)]) % TWO32 >= cycles[k - 1]
  {
    SumSinceFiring(t, cycles, k - 1);
    TickInTrueTime(After(t, cycles, k - 1), t[LastFiring(t, cycles, k - 1)], t[k - 1], t[k], cycles[k - 1]);
  }

  /** What the caller expects of call `k`: it fires when its cycle has passed since the last firing, and only then. */
  predicate Right(t: seq<nat>, cycles: seq<nat>, k: nat)
    requires 0 < k < |t| && k <= |cycles|
  {
    Fires(t, cycles, k) <==> t[LastFiring(t, cycles, k - 1)] + cycles[k - 1] <= t[k]
  }

  /** Within 2^32 ms of the last firing the answer is right. */
  lemma SeesShortTimes(t: seq<nat>, cycles: seq<nat>, k: nat)
    requires Ascending(t) && 0 < k < |t| && k <= |cycles|
    requires t[k] < t[LastFiring(t, cycles, k - 1)] + TWO32
    ensures Right(t, cycles, k)
  {
    TimerSees(t, cycles, k);
    SmallMod(t[k] - t[LastFiring(t, cycles, k - 1)], TWO32);
  }

  predicate Fixed(cycles: seq<nat>, cycle: nat) { forall i :: 0 <= i < |cycles| ==> cycles[i] == cycle }

  predicate GapsBelow(t: seq<nat>, gap: nat) { forall i :: 0 < i < |t| ==> t[i] - t[i - 1] <= gap }

  /** Calls with a fixed cycle of 32 bits, at most `gap` apart. */
  predicate Paced(t: seq<nat>, cycles: seq<nat>, cycle: nat, gap: nat) {
    Ascending(t) && Fixed(cycles, cycle) && GapsBelow(t, gap)
  }

  /** Room in 32 bits for one more gap on top of a cycle that is almost over. */
  predicate Room(cycle: nat, gap: nat) { cycle == 0 || gap + cycle <= TWO32 }

  /** With room, the true time since the last firing stays below the cycle. */
  lemma {:induction false} NeverOverdue(t: seq<nat>, cycles: seq<nat>, cycle: nat, gap: nat, k: nat)
    requires Paced(t, cycles, cycle, gap) && k < |t| && k <= |cycles| && 0 < cycle && gap + cycle <= TWO32
    ensures t[k] < t[LastFiring(t, cycles, k)] + cycle
    ensures k > 0 ==> Right(t, cycles, k)
  {
    if k > 0 {
      NeverOverdue(t, cycles, cycle, gap, k - 1);
      assert t[k - 1] <= t[k] && t[k] - t[k - 1] <= gap;
      SeesShortTimes(t, cycles, k);
    }
  }

  /** A cycle of 0 is over at every call. */
  lemma AlwaysDue(t: seq<nat>, cycles: seq<nat>, k: nat)
    requires Ascending(t) && 0 < k < |t| && k <= |cycles| && cycles[k - 1] == 0
    ensures Right(t, cycles, k) && LastFiring(t, cycles, k) == k
  {
    assert t[LastFiring(t, cycles, k - 1)] <= t[k];
  }

  /** Calls 1 ms apart up to the last one before the cycle is over, then one 2^32 ms after the start. */
  function Sleepy(cycle: nat): seq<nat> { seq(cycle + 1, i => if i < cycle then i else TWO32) }

  lemma {:induction false} NoFiringYet(cycle: nat, cycles: seq<nat>, k: nat)
    requires 0 < cycle < TWO32 && k < cycle == |cycles| && Fixed(cycles, cycle)
    ensures LastFiring(Sleepy(cycle), cycles, k) == 0
  {
    if k > 0 {
      NoFiringYet(cycle, cycles, k - 1);
      SeesShortTimes(Sleepy(cycle), cycles, k);
    }
  }

  /** The last of these calls does not fire, though the cycle is long over. */
  lemma SleepyMisses(cycle: nat, cycles: seq<nat>)
    requires 0 < cycle < TWO32 && cycle == |cycles| && Fixed(cycles, cycle)
    ensures !Right(Sleepy(cycle), cycles, cycle)
  {
    NoFiringYet(cycle, cycles, cycle - 1);
    TimerSees(Sleepy(cycle), cycles, cycle);
    assert (TWO32 - 0) % TWO32 == 0;
  }

  lemma SleepyIsPaced(cycle: nat, cycles: seq<nat>, gap: nat)
    requires 0 < cycle < TWO32 && Fixed(cycles, cycle) && gap + cycle > TWO32
    ensures Paced(Sleepy(cycle), cycles, cycle, gap)
  {
  }

  /** The exact limit: all answers are right, for all callers that keep to a cycle and a greatest gap,
      if and only if the gap and the cycle together fit in 2^32 ms (or the cycle is 0). */
  lemma AnswersExactly(cycle: nat, gap: nat)
    requires cycle < TWO32
    ensures (forall t, cycles, k: nat | Paced(t, cycles, cycle, gap) && 0 < k < |t| && k <= |cycles| ::
               Right(t, cycles, k))
            <==> Room(cycle, gap)
  {
    if Room(cycle, gap) {
      forall t, cycles, k: nat | Paced(t, cycles, cycle, gap) && 0 < k < |t| && k <= |cycles|
        ensures Right(t, cycles, k)
      {
        if cycle == 0 { AlwaysDue(t, cycles, k); } else { NeverOverdue(t, cycles, cycle, gap, k); }
      }
    } else {
      var cycles := seq(cycle, _ => cycle);
      SleepyIsPaced(cycle, cycles, gap);
      SleepyMisses(cycle, cycles);
    }
  }

  /** k firings need at least k cycles of real time, with any gaps. */
  lemma {:induction false} FiringsTakeTime(t: seq<nat>, cycles: seq<nat>, cycle: nat, k: nat)
    requires Ascending(t) && k < |t| && k <= |cycles| && Fixed(cycles, cycle)
    ensures Firings(t, cycles, k) * cycle <= t[LastFiring(t, cycles, k)] - t[0] <= t[k] - t[0]
  {
    if k > 0 {
      var f, last := Firings(t, cycles, k - 1), t[LastFiring(t, cycles, k - 1)];
      FiringsTakeTime(t, cycles, cycle, k - 1);
      TimerSees(t, cycles, k);
      assert last <= t[k];
      assert (t[k] - last) % TWO32 <= t[k] - last;
      OneMore(f, cycle);
    }
  }

  lemma OneMore(f: int, c: int)
    ensures (f + 1) * c == f * c + c
  {
  }

  /** With bounded gaps real time also cannot run ahead of the firings. */
  lemma {:induction false} TimeBringsFirings(t: seq<nat>, cycles: seq<nat>, cycle: nat, gap: nat, k: nat)
    requires Paced(t, cycles, cycle, gap) && k < |t| && k <= |cycles| && Room(cycle, gap)
    ensures t[LastFiring(t, cycles, k)] - t[0] <= Firings(t, cycles, k) * (cycle + gap)
    ensures t[k] - t[0] <= Firings(t, cycles, k) * (cycle + gap) + cycle
  {
    if cycle > 0 { NeverOverdue(t, cycles, cycle, gap, k); } else if k > 0 { AlwaysDue(t, cycles, k); }
    if k > 0 {
      TimeBringsFirings(t, cycles, cycle, gap, k - 1);
      assert t[k] - t[k - 1] <= gap;
      OneMore(Firings(t, cycles, k - 1), cycle + gap);
    }
  }

  /** The function with its static variables as fields. */
  class Timer {
    var curTime: nat
    var prevTime: nat
    var cumTime: nat
    var deltaTime: nat

    /** The first call initialises `cur_time` from the clock before it does anything else. */
    constructor (now: nat)
      ensures State(curTime, cumTime) == State(now, 0)
    {
      curTime, prevTime, cumTime, deltaTime := now, 0, 0, 0;
    }

    method Call(callCycle: nat, now: nat) returns (fired: bool)
      modifies this
      ensures (State(curTime, cumTime), fired) == Tick(old(State(curTime, cumTime)), now, callCycle)
      ensures prevTime == old(curTime) && deltaTime == (now - old(curTime)) % TWO32
    {
      prevTime := curTime;
      curTime := now;
      deltaTime := (curTime - prevTime) % TWO32;
      cumTime := (cumTime + deltaTime) % TWO32;
      if callCycle > cumTime { return false; }
      cumTime := 0;
      return true;
    }
  }
}

/**
 Deadlines: building a timespec from the clock and a timeout, comparing and
 subtracting timespecs, and turning one back into a wait in milliseconds.
 Clock readings count 100 ns units; `ulonglong` and `DWORD` arithmetic wraps.
 */
module TimespecSpec {
  import opened Modular

  const NS_PER_S := 1_000_000_000
  const TICKS_PER_S := 10_000_000

  /** Nanoseconds that a pair of fields stands for. */
  function Nanos(sec: int, nsec: int): int { sec * NS_PER_S + nsec }

  predicate Normalised(nsec: int) { 0 <= nsec < NS_PER_S }

  /** The two fields that set_timespec_nsec stores. */
  function DeadlineTicks(clock: nat, nsec: nat): nat { (clock + nsec / 100) % TWO64 }

  function DeadlineSec(clock: nat, nsec: nat): nat { DeadlineTicks(clock, nsec) / TICKS_PER_S }

  function DeadlineNsec(clock: nat, nsec: nat): nat {
    DeadlineTicks(clock, nsec) % TICKS_PER_S * 100 + nsec % 100
  }

  /** Always normalised; the exact deadline precisely when the tick sum stays below 2^64. */
  lemma DeadlineExactly(clock: nat, nsec: nat)
    requires clock < TWO64 && nsec < TWO64
    ensures Normalised(DeadlineNsec(clock, nsec))
    ensures Nanos(DeadlineSec(clock, nsec), DeadlineNsec(clock, nsec)) == clock * 100 + nsec
            <==> clock + nsec / 100 < TWO64
  {
    var t := DeadlineTicks(clock, nsec);
    assert t == t / TICKS_PER_S * TICKS_PER_S + t % TICKS_PER_S;
    assert nsec == nsec / 100 * 100 + nsec % 100;
  }

  /** `sec * 1000000000ULL` keeps the seconds exactly up to 18446744073. */
  lemma SecondsExactly(sec: nat)
    ensures sec * NS_PER_S % TWO64 == sec * NS_PER_S <==> sec <= 18_446_744_073
  {
  }

  /** The deadline `sec` seconds ahead is exact precisely when neither the product nor the tick sum wraps. */
  lemma SetExactly(clock: nat, sec: nat)
    requires clock < TWO64
    ensures var nsec := sec * NS_PER_S % TWO64;
            Nanos(DeadlineSec(clock, nsec), DeadlineNsec(clock, nsec)) == clock * 100 + sec * NS_PER_S
            <==> sec <= 18_446_744_073 && clock + sec * TICKS_PER_S < TWO64
  {
    var nsec := sec * NS_PER_S % TWO64;
    SecondsExactly(sec);
    DeadlineExactly(clock, nsec);
    DeadlineBound(clock, nsec);
  }

  /** A deadline never lies beyond the true one. */
  lemma DeadlineBound(clock: nat, nsec: nat)
    requires clock < TWO64 && nsec < TWO64
    ensures Nanos(DeadlineSec(clock, nsec), DeadlineNsec(clock, nsec)) <= clock * 100 + nsec
  {
    var t := DeadlineTicks(clock, nsec);
    assert t == t / TICKS_PER_S * TICKS_PER_S + t % TICKS_PER_S;
    assert nsec == nsec / 100 * 100 + nsec % 100;
  }

  // ---------------------------------------------------------------------
  // The wait in milliseconds
  // ---------------------------------------------------------------------

  /** The compiled branch of get_milliseconds, at clock reading `clock`. */
  function Milliseconds(sec: nat, nsec: nat, clock: nat): nat {
    var future := (sec * 1000 + nsec / 1_000_000) % TWO64;
    var now := clock / 10000;
    if future < now then 0 else (future - now) % TWO32
  }

  /** Whole milliseconds up to the deadline. */
  function DeadlineMs(sec: nat, nsec: nat): nat { (sec * NS_PER_S + nsec) / 1_000_000 }

  lemma DeadlineMsOfFields(sec: nat, nsec: nat)
    ensures DeadlineMs(sec, nsec) == sec * 1000 + nsec / 1_000_000
  {
  }

  /** Zero from the deadline on; before it within one millisecond of the rest. */
  predicate Accurate(left: int, wait: int) {
    && (left <= 0 ==> wait == 0)
    && (left > 0 ==> -1_000_000 < wait * 1_000_000 - left < 1_000_000)
  }

  /** The wait is accurate exactly when it needs at most 32 bits; at 2^32 ms it comes out as zero. */
  lemma WaitExactly(sec: nat, nsec: nat, clock: nat)
    requires sec * 1000 + nsec / 1_000_000 < TWO64
    ensures Accurate(Nanos(sec, nsec) - clock * 100, Milliseconds(sec, nsec, clock))
            <==> DeadlineMs(sec, nsec) < clock / 10000 + TWO32
    ensures DeadlineMs(sec, nsec) == clock / 10000 + TWO32 ==> Milliseconds(sec, nsec, clock) == 0
  {
    DeadlineMsOfFields(sec, nsec);
    assert clock / 10000 == clock * 100 / 1_000_000;
    WholeMsExactly(Nanos(sec, nsec), clock * 100, DeadlineMs(sec, nsec), clock / 10000);
  }

  lemma WholeMsExactly(deadline: nat, now: nat, d: nat, c: nat)
    requires d * 1_000_000 <= deadline < (d + 1) * 1_000_000 && c * 1_000_000 <= now < (c + 1) * 1_000_000
    ensures Accurate(deadline - now, if d < c then 0 else (d - c) % TWO32) <==> d < c + TWO32
  {
    if d >= c { CutMs(d - c); }
  }

  /** What the cast to 32 bits does. */
  lemma CutMs(x: nat)
    ensures if x < TWO32 then x % TWO32 == x else x % TWO32 <= x - TWO32
  {
  }

  /** A later clock never asks for a longer wait. */
  lemma WaitShrinks(sec: nat, nsec: nat, clock: nat, later: nat)
    requires sec * 1000 + nsec / 1_000_000 < TWO64 && DeadlineMs(sec, nsec) < clock / 10000 + TWO32
    requires clock <= later
    ensures Milliseconds(sec, nsec, later) <= Milliseconds(sec, nsec, clock)
  {
    DeadlineMsOfFields(sec, nsec);
    assert clock / 10000 <= later / 10000;
  }

  /** End to end: a deadline set `nsec` ahead asks at any other clock reading for what is left of it. */
  lemma TimeoutThenWait(clock: nat, nsec: nat, later: nat)
    requires clock < TWO64 && nsec < TWO64 && clock + nsec / 100 < TWO64
    ensures Accurate(clock * 100 + nsec - later * 100,
                     Milliseconds(DeadlineSec(clock, nsec), DeadlineNsec(clock, nsec), later))
            <==> (clock * 100 + nsec) / 1_000_000 < later / 10000 + TWO32
  {
    DeadlineExactly(clock, nsec);
    DeadlineMsOfFields(DeadlineSec(clock, nsec), DeadlineNsec(clock, nsec));
    WaitExactly(DeadlineSec(clock, nsec), DeadlineNsec(clock, nsec), later);
  }

  // ---------------------------------------------------------------------
  // Comparing and subtracting
  // ---------------------------------------------------------------------

  function Compare(s1: int, n1: int, s2: int, n2: int): int {
    if s1 > s2 || (s1 == s2 && n1 > n2) then 1
    else if s1 < s2 || (s1 == s2 && n1 < n2) then -1
    else 0
  }

  /** On normalised timespecs the comparison is that of the times. */
  lemma CompareIsOrder(s1: int, n1: int, s2: int, n2: int)
    requires Normalised(n1) && Normalised(n2)
    ensures Compare(s1, n1, s2, n2) == 1 <==> Nanos(s1, n1) > Nanos(s2, n2)
    ensures Compare(s1, n1, s2, n2) == -1 <==> Nanos(s1, n1) < Nanos(s2, n2)
    ensures Compare(s1, n1, s2, n2) == 0 <==> s1 == s2 && n1 == n2
  {
  }

  function Difference(s1: int, n1: int, s2: int, n2: int): nat {
    ((s1 - s2) % TWO64 * NS_PER_S + n1 - n2) % TWO64
  }

  lemma ModTwice(a: int, k: int)
    ensures (a % TWO64 * NS_PER_S + k) % TWO64 == (a * NS_PER_S + k) % TWO64
  {
    assert a == a / TWO64 * TWO64 + a % TWO64;
    assert a * NS_PER_S + k == a / TWO64 * NS_PER_S * TWO64 + (a % TWO64 * NS_PER_S + k);
  }

  /** The unsigned difference is the true one exactly when that is not negative and below 2^64. */
  lemma DifferenceExactly(s1: int, n1: int, s2: int, n2: int)
    ensures Difference(s1, n1, s2, n2) == Nanos(s1, n1) - Nanos(s2, n2)
            <==> 0 <= Nanos(s1, n1) - Nanos(s2, n2) < TWO64
  {
    ModTwice(s1 - s2, n1 - n2);
  }
}

/** The struct and the functions that write or read it. */
module Timespecs {
  import opened Modular
  import opened TimespecSpec

  class Timespec {
    var sec: int
    var nsec: int

    method SetNsec(clock: nat, timeout: nat)
      requires clock < TWO64 && timeout < TWO64
      modifies this
      ensures sec == DeadlineSec(clock, timeout) && nsec == DeadlineNsec(clock, timeout)
      ensures Normalised(nsec)
      ensures Nanos(sec, nsec) == clock * 100 + timeout <==> clock + timeout / 100 < TWO64
    {
      var now := (clock + timeout / 100) % TWO64;
      sec := now / TICKS_PER_S;
      nsec := now % TICKS_PER_S * 100 + timeout % 100;
      DeadlineExactly(clock, timeout);
    }

    method Set(clock: nat, seconds: nat)
      requires clock < TWO64 && seconds < TWO64
      modifies this
      ensures sec == DeadlineSec(clock, seconds * NS_PER_S % TWO64)
      ensures nsec == DeadlineNsec(clock, seconds * NS_PER_S % TWO64)
      ensures Nanos(sec, nsec) == clock * 100 + seconds * NS_PER_S
              <==> seconds <= 18_446_744_073 && clock + seconds * TICKS_PER_S < TWO64
    {
      SetExactly(clock, seconds);
      SetNsec(clock, seconds * NS_PER_S % TWO64);
    }
  }

  /** Field by field, which for normalised fields is the order of the times. */
  method Cmp(ts1: Timespec, ts2: Timespec) returns (r: int)
    ensures r == Compare(ts1.sec, ts1.nsec, ts2.sec, ts2.nsec)
    ensures Normalised(ts1.nsec) && Normalised(ts2.nsec) ==>
              var t1, t2 := Nanos(ts1.sec, ts1.nsec), Nanos(ts2.sec, ts2.nsec);
              (r == 1 <==> t1 > t2) && (r == -1 <==> t1 < t2) && (r == 0 <==> t1 == t2)
  {
    if Normalised(ts1.nsec) && Normalised(ts2.nsec) { CompareIsOrder(ts1.sec, ts1.nsec, ts2.sec, ts2.nsec); }
    if ts1.sec > ts2.sec || (ts1.sec == ts2.sec && ts1.nsec > ts2.nsec) { return 1; }
    if ts1.sec < ts2.sec || (ts1.sec == ts2.sec && ts1.nsec < ts2.nsec) { return -1; }
    return 0;
  }

  /** Zero from the deadline on, and before it within 1 ms of the rest, exactly if that takes at most 32 bits. */
  method GetMilliseconds(abstime: Timespec, clock: nat) returns (wait: nat)
    requires 0 <= abstime.sec && 0 <= abstime.nsec
    ensures wait == Milliseconds(abstime.sec, abstime.nsec, clock)
    ensures wait < TWO32
    ensures DeadlineMs(abstime.sec, abstime.nsec) < TWO64 ==>
              (Accurate(Nanos(abstime.sec, abstime.nsec) - clock * 100, wait)
               <==> DeadlineMs(abstime.sec, abstime.nsec) < clock / 10000 + TWO32)
  {
    DeadlineMsOfFields(abstime.sec, abstime.nsec);
    if DeadlineMs(abstime.sec, abstime.nsec) < TWO64 { WaitExactly(abstime.sec, abstime.nsec, clock); }
    var future := (abstime.sec * 1000 + abstime.nsec / 1_000_000) % TWO64;
    var now := clock / 10000;
    if future < now { return 0; }
    return (future - now) % TWO32;
  }
}

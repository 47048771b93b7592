/**
 The program that tests the stack: every thread pushes and pops in turn, and a
 monitor raises the alarm when the node count leaves the range from 0 to the
 number of threads.
 */
module LockFreeMonitor {
  import opened LockFreeStack

  /** A thread's calls alternate, Push first; what a Pop returns is not looked at. */
  predicate InTurn(me: Thread, a: Action) {
    me.pc.Idle? ==> (a.CallPush? || a.CallReturn? ==> me.calls % 2 == 0) && (a.CallPop? ==> me.calls % 2 == 1)
  }

  predicate TestRun(m: nat, n: nat, run: Schedule)
    requires m > 0 && ValidRun(n, run)
  {
    run != [] ==>
      && TestRun(m, n, run[..|run| - 1])
      && InTurn(Run(m, n, run[..|run| - 1]).th[run[|run| - 1].0], run[|run| - 1].1)
  }

  /** No pop fails, so that the calls made fix the balance. */
  predicate TestThread(me: Thread) {
    && me.balance == (if Pushing(me.pc) then 0 else if Popping(me.pc) then 1 else me.calls % 2)
    && (Pushing(me.pc) || me.pc.PushCount? ==> me.calls % 2 == 1)
    && (Popping(me.pc) || me.pc.PopCount? || me.pc.PopData? || me.pc.PopFree? ==> me.calls % 2 == 0)
  }

  lemma {:induction false} SumBounds(th: seq<Thread>)
    requires forall t :: 0 <= t < |th| ==> TestThread(th[t])
    ensures 0 <= CountedSum(th) <= |th|
    ensures 0 <= BalanceSum(th)
    ensures forall t :: 0 <= t < |th| ==> BalanceSum(th) >= th[t].balance
  {
    if th != [] {
      assert TestThread(th[0]);
      SumBounds(th[1..]);
      forall t | 0 <= t < |th| ensures BalanceSum(th) >= th[t].balance {
        if t > 0 { assert th[1..][t - 1] == th[t]; }
      }
    }
  }

  lemma TestStep(m: nat, s: State, t: nat, a: Action)
    requires m > 0 && t < |s.th| && TestThread(s.th[t]) && InTurn(s.th[t], a)
    requires s.th[t].pc.PopRead? ==> s.top.addr != 0
    ensures var s' := Step(m, s, t, a); |s'.th| == |s.th| && TestThread(s'.th[t])
  {
    StepTouchesOne(m, s, t, a);
  }

  predicate TestInv(s: State) {
    forall t :: 0 <= t < |s.th| ==> TestThread(s.th[t]) && (s.th[t].pc.PopRead? ==> s.top.addr != 0)
  }

  /** In every run whose pops are current no pop of the test program finds the stack empty. */
  lemma {:induction false} PopsSucceed(m: nat, n: nat, run: Schedule)
    requires m > 0 && ValidRun(n, run) && TestRun(m, n, run) && CurrentRun(m, n, run)
    ensures TestInv(Run(m, n, run))
  {
    var s' := Run(m, n, run);
    if run != [] {
      var before, t := run[..|run| - 1], run[|run| - 1].0;
      PopsSucceed(m, n, before);
      TestStep(m, Run(m, n, before), t, run[|run| - 1].1);
      StepTouchesOne(m, Run(m, n, before), t, run[|run| - 1].1);
    }
    SumBounds(s'.th);
    HeightIsSum(m, n, run);
    RunKeepsInv(m, n, run);
  }

  /** In every run whose pops are current the alarm stays off. */
  lemma MonitorStaysQuiet(m: nat, n: nat, run: Schedule)
    requires m > 0 && ValidRun(n, run) && TestRun(m, n, run) && CurrentRun(m, n, run)
    ensures 0 <= Run(m, n, run).count <= n
  {
    PopsSucceed(m, n, run);
    SumBounds(Run(m, n, run).th);
    CountIsSum(m, n, run);
  }

  /** The monitor's alarm stays off as long as no more numbers are drawn than there are tag values, or on one thread. */
  lemma MonitorInLimit(m: nat, n: nat, run: Schedule)
    requires m > 0 && ValidRun(n, run) && TestRun(m, n, run) && (n <= 1 || Run(m, n, run).unique <= m)
    ensures 0 <= Run(m, n, run).count <= n
  {
    FewNumbersAreRight(m, n, run);
    MonitorStaysQuiet(m, n, run);
  }

  // ---------------------------------------------------------------------
  // The lower bound needs no condition
  // ---------------------------------------------------------------------

  /** A thread pops only after a push of its own that took effect, whatever its earlier pops found. */
  predicate PopsOwn(me: Thread) {
    && me.balance >= (if Popping(me.pc) || me.pc.PushCount? || (me.pc.Idle? && me.calls % 2 == 1) then 1 else 0)
    && (Pushing(me.pc) || me.pc.PushCount? ==> me.calls % 2 == 1)
    && (Popping(me.pc) || me.pc.PopCount? || me.pc.PopData? || me.pc.PopFree? ==> me.calls % 2 == 0)
  }

  lemma PopsOwnStep(m: nat, s: State, t: nat, a: Action)
    requires m > 0 && t < |s.th| && PopsOwn(s.th[t]) && InTurn(s.th[t], a)
    ensures var s' := Step(m, s, t, a); |s'.th| == |s.th| && PopsOwn(s'.th[t])
  {
    StepTouchesOne(m, s, t, a);
  }

  lemma {:induction false} AllPopOwn(m: nat, n: nat, run: Schedule)
    requires m > 0 && ValidRun(n, run) && TestRun(m, n, run)
    ensures forall t :: 0 <= t < n ==> PopsOwn(Run(m, n, run).th[t])
  {
    if run != [] {
      var before, t, a := run[..|run| - 1], run[|run| - 1].0, run[|run| - 1].1;
      AllPopOwn(m, n, before);
      PopsOwnStep(m, Run(m, n, before), t, a);
      StepTouchesOne(m, Run(m, n, before), t, a);
    }
  }

  lemma {:induction false} CountedNotNegative(th: seq<Thread>)
    requires forall t :: 0 <= t < |th| ==> PopsOwn(th[t])
    ensures CountedSum(th) >= 0
  {
    if th != [] {
      assert PopsOwn(th[0]);
      CountedNotNegative(th[1..]);
    }
  }

  /** In every run of the test program, however many numbers are drawn, the count is not negative. */
  lemma CountNeverNegative(m: nat, n: nat, run: Schedule)
    requires m > 0 && ValidRun(n, run) && TestRun(m, n, run)
    ensures Run(m, n, run).count >= 0
  {
    AllPopOwn(m, n, run);
    CountedNotNegative(Run(m, n, run).th);
    CountIsSum(m, n, run);
  }
}

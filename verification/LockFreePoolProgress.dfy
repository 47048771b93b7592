/**
 The stack with its pool is lock-free as a whole: Push and Pop return, Alloc and
 Free inside them included.
 */
module LockFreePoolProgress {
  import opened Options
  import opened LockFreeStack
  import opened LockFreeProgress
  import opened LockFreePool

  // ---------------------------------------------------------------------
  // Where a thread can be, in any run
  // ---------------------------------------------------------------------

  predicate JobRuns(job: Job, onStack: Pc, onPool: Pc) {
    match job
    case InAlloc(_) => onStack.Idle? && PopPc(onPool)
    case InPush => (PushPc(onStack) || onStack.Idle?) && onPool.Idle?
    case InPop => PopPc(onStack) && onPool.Idle?
    case InFree => onStack.Idle? && (PushPc(onPool) || onPool.Idle?)
    case _ => onStack.Idle? && onPool.Idle?
  }

  predicate AllRun(sys: System) {
    && Fits(sys, |sys.job|)
    && forall t :: 0 <= t < |sys.job| ==> JobRuns(sys.job[t], sys.stack.th[t].pc, sys.pool.th[t].pc)
  }

  lemma StepKeepsRunning(m: nat, sys: System, t: nat, move: Move)
    requires m > 0 && AllRun(sys) && t < |sys.job|
    ensures AllRun(SystemStep(m, sys, t, move))
  {
    var sys' := SystemStep(m, sys, t, move);
    StepMoves(m, sys.stack, t, OnStack(sys, t, move));
    StepMoves(m, sys.pool, t, OnPool(sys, t, move));
    assert JobRuns(sys.job[t], sys.stack.th[t].pc, sys.pool.th[t].pc);
    JobStillRuns(sys, sys', t, move);
    forall u | 0 <= u < |sys.job| && u != t ensures JobRuns(sys'.job[u], sys'.stack.th[u].pc, sys'.pool.th[u].pc) {
      assert JobRuns(sys.job[u], sys.stack.th[u].pc, sys.pool.th[u].pc);
    }
  }

  lemma JobStillRuns(sys: System, sys': System, t: nat, move: Move)
    requires Fits(sys, |sys.job|) && Fits(sys', |sys.job|) && t < |sys.job|
    requires JobRuns(sys.job[t], sys.stack.th[t].pc, sys.pool.th[t].pc)
    requires Moved(sys.stack, sys'.stack, t, OnStack(sys, t, move))
    requires Moved(sys.pool, sys'.pool, t, OnPool(sys, t, move))
    requires sys'.job[t] == NextJob(sys, t, move, sys'.stack, sys'.pool)
    ensures JobRuns(sys'.job[t], sys'.stack.th[t].pc, sys'.pool.th[t].pc)
  {
  }

  lemma {:induction false} AlwaysRunning(m: nat, n: nat, run: Moves)
    requires m > 0 && ValidMoves(n, run)
    ensures AllRun(SystemRun(m, n, run))
  {
    if run != [] {
      AlwaysRunning(m, n, run[..|run| - 1]);
      StepKeepsRunning(m, SystemRun(m, n, run[..|run| - 1]), run[|run| - 1].0, run[|run| - 1].1);
    }
  }

  // ---------------------------------------------------------------------
  // A thread alone
  // ---------------------------------------------------------------------

  /** An upper bound for the steps that a thread's call still takes if nobody swaps a word. */
  function SystemRank(m: nat, sys: System, t: nat): (r: nat)
    requires m > 0 && Fits(sys, |sys.job|) && t < |sys.job|
    ensures r <= 15
  {
    var onStack, onPool := Rank(m, sys.stack.top, sys.stack.th[t]), Rank(m, sys.pool.top, sys.pool.th[t]);
    match sys.job[t]
    case Rest => 0
    case InAlloc(_) => onPool + 7
    case HasNode(_, _) => 7
    case InPush => if onStack == 0 then 1 else onStack
    case InPop => onStack + 6
    case HasPopped(_) => 6
    case InFree => if onPool == 0 then 1 else onPool
  }

  /** The thread is inside a call, and `new` can give it a node if it needs one. */
  predicate CanGoOn(sys: System, t: nat, move: Move)
    requires Fits(sys, |sys.job|) && t < |sys.job|
  {
    !sys.job[t].Rest? && (sys.job[t].InAlloc? && FindsEmpty(sys.pool, t) ==> IsNew(sys, move))
  }

  lemma OwnMoveLowersRank(m: nat, sys: System, t: nat, move: Move)
    requires m > 0 && AllRun(sys) && t < |sys.job| && CanGoOn(sys, t, move)
    ensures SystemRank(m, SystemStep(m, sys, t, move), t) < SystemRank(m, sys, t)
  {
    assert JobRuns(sys.job[t], sys.stack.th[t].pc, sys.pool.th[t].pc);
    match sys.job[t]
    case InAlloc(_) => OnPoolLowersRank(m, sys, t, move);
    case InFree => OnPoolLowersRank(m, sys, t, move);
    case InPush => OnStackLowersRank(m, sys, t, move);
    case InPop => OnStackLowersRank(m, sys, t, move);
    case HasNode(_, _) => HandOver(m, sys.stack, t, OnStack(sys, t, move).value);
    case HasPopped(_) => HandOver(m, sys.pool, t, OnPool(sys, t, move).value);
  }

  lemma OnPoolLowersRank(m: nat, sys: System, t: nat, move: Move)
    requires m > 0 && AllRun(sys) && t < |sys.job| && CanGoOn(sys, t, move)
    requires sys.job[t].InAlloc? || sys.job[t].InFree?
    ensures SystemRank(m, SystemStep(m, sys, t, move), t) < SystemRank(m, sys, t)
  {
    assert JobRuns(sys.job[t], sys.stack.th[t].pc, sys.pool.th[t].pc);
    StepMoves(m, sys.pool, t, Some(Continue));
    if sys.pool.th[t].pc.Idle? {
      assert Step(m, sys.pool, t, Continue) == sys.pool;
    } else {
      OwnStepLowersRank(m, sys.pool, t);
    }
  }

  lemma OnStackLowersRank(m: nat, sys: System, t: nat, move: Move)
    requires m > 0 && AllRun(sys) && t < |sys.job|
    requires sys.job[t].InPush? || sys.job[t].InPop?
    ensures SystemRank(m, SystemStep(m, sys, t, move), t) < SystemRank(m, sys, t)
  {
    assert JobRuns(sys.job[t], sys.stack.th[t].pc, sys.pool.th[t].pc);
    StepMoves(m, sys.stack, t, Some(Continue));
    if sys.stack.th[t].pc.Idle? {
      assert Step(m, sys.stack, t, Continue) == sys.stack;
    } else {
      OwnStepLowersRank(m, sys.stack, t);
    }
  }

  /** A push begins, with its node cleared first or as it is. */
  lemma HandOver(m: nat, s: State, t: nat, a: Action)
    requires m > 0 && t < |s.th| && s.th[t].pc.Idle? && (a.CallPush? || a.CallReturn?)
    ensures var s' := Step(m, s, t, a);
            |s'.th| == |s.th| && Rank(m, s'.top, s'.th[t]) <= if a.CallPush? then 6 else 5
  {
    StepTouchesOne(m, s, t, a);
  }

  /** `k` moves of thread `t` with nobody else moving. */
  function SystemAlone(m: nat, sys: System, t: nat, spare: nat, k: nat): (sys': System)
    requires m > 0 && Fits(sys, |sys.job|) && t < |sys.job|
    ensures Fits(sys', |sys.job|)
    decreases k
  {
    if k == 0 then sys else SystemAlone(m, SystemStep(m, sys, t, Go(spare)), t, spare, k - 1)
  }

  lemma {:induction false} AloneRests(m: nat, sys: System, t: nat, spare: nat, k: nat)
    requires m > 0 && AllRun(sys) && t < |sys.job| && k >= SystemRank(m, sys, t)
    requires sys.job[t].InAlloc? ==> IsNew(sys, Go(spare))
    ensures SystemAlone(m, sys, t, spare, k).job[t].Rest?
    decreases k
  {
    if k > 0 {
      var sys1 := SystemStep(m, sys, t, Go(spare));
      StepKeepsRunning(m, sys, t, Go(spare));
      if sys.job[t].Rest? {
        assert sys1.job[t].Rest?;
      } else {
        OwnMoveLowersRank(m, sys, t, Go(spare));
      }
      AloneRests(m, sys1, t, spare, k - 1);
    } else {
      assert JobRuns(sys.job[t], sys.stack.th[t].pc, sys.pool.th[t].pc);
    }
  }

  /** From every reachable state a call of the stack, Alloc or Free included, returns within 15 steps if its thread is
      left alone and `new` has an address for it. */
  lemma SystemAloneReturns(m: nat, n: nat, run: Moves, t: nat, spare: nat)
    requires m > 0 && ValidMoves(n, run) && t < n && IsNew(SystemRun(m, n, run), Go(spare))
    ensures SystemAlone(m, SystemRun(m, n, run), t, spare, 15).job[t].Rest?
  {
    AlwaysRunning(m, n, run);
    AloneRests(m, SystemRun(m, n, run), t, spare, 15);
  }

  // ---------------------------------------------------------------------
  // Lock-freedom
  // ---------------------------------------------------------------------

  /** This move is a compare-and-swap that succeeds, on either word. */
  predicate SystemSwaps(m: nat, sys: System, t: nat, move: Move)
    requires m > 0 && Fits(sys, |sys.job|) && t < |sys.job|
  {
    || (OnStack(sys, t, move) == Some(Continue) && Swaps(m, sys.stack, t))
    || (OnPool(sys, t, move) == Some(Continue) && Swaps(m, sys.pool, t))
  }

  /** A compare-and-swap of the stack, or of the pool, fails only because another thread's has succeeded there. */
  lemma SystemFailsOnlyBySwap(m: nat, n: nat, run: Moves, t: nat)
    requires m > 0 && ValidMoves(n, run) && t < n
    ensures var s, part := SystemRun(m, n, run).stack, StackPart(m, n, run);
            AtCas(s.th[t].pc) && !Swaps(m, s, t) ==>
              exists i :: 0 < LastRead(m, n, part, t) <= i < |part| && OtherSwapsAt(m, n, part, t, i)
    ensures var s, part := SystemRun(m, n, run).pool, PoolPart(m, n, run);
            AtCas(s.th[t].pc) && !Swaps(m, s, t) ==>
              exists i :: 0 < LastRead(m, n, part, t) <= i < |part| && OtherSwapsAt(m, n, part, t, i)
  {
    var sys := SystemRun(m, n, run);
    PartsRun(m, n, run);
    if AtCas(sys.stack.th[t].pc) && !Swaps(m, sys.stack, t) {
      var i := FailsOnlyBySwap(m, n, StackPart(m, n, run), t);
    }
    if AtCas(sys.pool.th[t].pc) && !Swaps(m, sys.pool, t) {
      var i := FailsOnlyBySwap(m, n, PoolPart(m, n, run), t);
    }
  }

  lemma QuietMoveKeepsWords(m: nat, sys: System, u: nat, move: Move)
    requires m > 0 && AllRun(sys) && u < |sys.job| && !SystemSwaps(m, sys, u, move)
    ensures var sys' := SystemStep(m, sys, u, move); sys'.stack.top == sys.stack.top && sys'.pool.top == sys.pool.top
  {
    assert JobRuns(sys.job[u], sys.stack.th[u].pc, sys.pool.th[u].pc);
    var a, b := OnStack(sys, u, move), OnPool(sys, u, move);
    if a.Some? { WordChangesBySwap(m, sys.stack, u, a.value); }
    if b.Some? { WordChangesBySwap(m, sys.pool, u, b.value); }
  }

  /** The ranks of the first `j` threads, added up. */
  function SystemRankSum(m: nat, sys: System, j: nat): nat
    requires m > 0 && Fits(sys, |sys.job|) && j <= |sys.job|
  {
    if j == 0 then 0 else SystemRankSum(m, sys, j - 1) + SystemRank(m, sys, j - 1)
  }

  lemma {:induction false} SystemRankSumBound(m: nat, sys: System, j: nat)
    requires m > 0 && Fits(sys, |sys.job|) && j <= |sys.job|
    ensures SystemRankSum(m, sys, j) <= 15 * j
  {
    if j > 0 { SystemRankSumBound(m, sys, j - 1); }
  }

  lemma OthersKeepRank(m: nat, sys: System, u: nat, move: Move, t: nat)
    requires m > 0 && AllRun(sys) && u < |sys.job| && t < |sys.job| && t != u && !SystemSwaps(m, sys, u, move)
    ensures SystemRank(m, SystemStep(m, sys, u, move), t) == SystemRank(m, sys, t)
  {
    QuietMoveKeepsWords(m, sys, u, move);
    StepMoves(m, sys.stack, u, OnStack(sys, u, move));
    StepMoves(m, sys.pool, u, OnPool(sys, u, move));
  }

  lemma {:induction false} SumsCompare(m: nat, sys: System, sys': System, u: nat, j: nat)
    requires m > 0 && Fits(sys, |sys.job|) && Fits(sys', |sys.job|) && u < |sys.job| && j <= |sys.job|
    requires SystemRank(m, sys', u) < SystemRank(m, sys, u)
    requires forall t :: 0 <= t < |sys.job| && t != u ==> SystemRank(m, sys', t) == SystemRank(m, sys, t)
    ensures SystemRankSum(m, sys', j) + (if u < j then 1 else 0) <= SystemRankSum(m, sys, j)
  {
    if j > 0 { SumsCompare(m, sys, sys', u, j - 1); }
  }

  lemma RankSumFalls(m: nat, sys: System, u: nat, move: Move)
    requires m > 0 && AllRun(sys) && u < |sys.job| && CanGoOn(sys, u, move) && !SystemSwaps(m, sys, u, move)
    ensures SystemRankSum(m, SystemStep(m, sys, u, move), |sys.job|) < SystemRankSum(m, sys, |sys.job|)
  {
    var sys' := SystemStep(m, sys, u, move);
    OwnMoveLowersRank(m, sys, u, move);
    forall t | 0 <= t < |sys.job| && t != u ensures SystemRank(m, sys', t) == SystemRank(m, sys, t) {
      OthersKeepRank(m, sys, u, move, t);
    }
    SumsCompare(m, sys, sys', u, |sys.job|);
  }

  /** From move `from` on, only threads inside calls that can go on move, and none swaps a word. */
  predicate SystemFruitless(m: nat, n: nat, run: Moves, from: nat)
    requires m > 0 && ValidMoves(n, run)
  {
    forall k :: from <= k < |run| ==>
      var sys := SystemRun(m, n, run[..k]);
      CanGoOn(sys, run[k].0, run[k].1) && !SystemSwaps(m, sys, run[k].0, run[k].1)
  }

  lemma {:induction false} FruitlessLowersRanks(m: nat, n: nat, run: Moves, from: nat)
    requires m > 0 && ValidMoves(n, run) && from <= |run| && SystemFruitless(m, n, run, from)
    ensures SystemRankSum(m, SystemRun(m, n, run), n) + (|run| - from)
            <= SystemRankSum(m, SystemRun(m, n, run[..from]), n)
  {
    if |run| == from {
      assert run[..from] == run;
    } else {
      var before, t, move := run[..|run| - 1], run[|run| - 1].0, run[|run| - 1].1;
      assert before[..from] == run[..from];
      FruitlessBefore(m, n, run, from);
      FruitlessLowersRanks(m, n, before, from);
      AlwaysRunning(m, n, before);
      RankSumFalls(m, SystemRun(m, n, before), t, move);
    }
  }

  lemma FruitlessBefore(m: nat, n: nat, run: Moves, from: nat)
    requires m > 0 && ValidMoves(n, run) && from < |run| && SystemFruitless(m, n, run, from)
    ensures SystemFruitless(m, n, run[..|run| - 1], from)
  {
    var before := run[..|run| - 1];
    forall k | from <= k < |before|
      ensures CanGoOn(SystemRun(m, n, before[..k]), before[k].0, before[k].1)
      ensures !SystemSwaps(m, SystemRun(m, n, before[..k]), before[k].0, before[k].1)
    {
      assert before[..k] == run[..k];
    }
  }

  /** Among any 15n + 1 moves of threads inside calls, one is a compare-and-swap that succeeds, on either word. */
  lemma SomeoneSucceeds(m: nat, n: nat, run: Moves, from: nat)
    requires m > 0 && ValidMoves(n, run) && from <= |run| && SystemFruitless(m, n, run, from)
    ensures |run| - from <= 15 * n
  {
    FruitlessLowersRanks(m, n, run, from);
    SystemRankSumBound(m, SystemRun(m, n, run[..from]), n);
  }
}

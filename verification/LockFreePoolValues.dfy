/**
 What happens to the values: a push carries what its caller gave, and no value is
 lost, changed or returned twice on its way through the pool, the stack and the
 threads.
 */
module LockFreePoolValues {
  import opened Options
  import opened LockFreeStack
  import opened LockFreePool

  // ---------------------------------------------------------------------
  // The caller's side
  // ---------------------------------------------------------------------

  /** The call that a move begins, if any. */
  predicate Begins(sys: System, t: nat, move: Move)
    requires t < |sys.job|
  {
    sys.job[t].Rest? && move.Push?
  }

  function One(b: bool): nat { if b then 1 else 0 }

  /** How many Push calls were begun with the value `v`. */
  function Given(m: nat, n: nat, run: Moves, v: int): nat
    requires m > 0 && ValidMoves(n, run)
  {
    if run == [] then 0
    else
      var before, (t, move) := run[..|run| - 1], run[|run| - 1];
      Given(m, n, before, v) + One(Begins(SystemRun(m, n, before), t, move) && move.data == v)
  }

  /** The value of the last Push call that thread `t` has begun. */
  function LastGiven(m: nat, n: nat, run: Moves, t: nat): int
    requires m > 0 && ValidMoves(n, run) && t < n
  {
    if run == [] then 0
    else
      var before, (u, move) := run[..|run| - 1], run[|run| - 1];
      if u == t && Begins(SystemRun(m, n, before), t, move) then move.data else LastGiven(m, n, before, t)
  }

  /** A pop that has found a node returns to its caller with this move. */
  predicate Returns(m: nat, sys: System, t: nat, move: Move)
    requires m > 0 && Fits(sys, |sys.job|) && t < |sys.job|
  {
    sys.job[t].InFree? && SystemStep(m, sys, t, move).job[t].Rest?
  }

  /** How many pops have returned the value `v`: what their callers find in `dst`. */
  function Got(m: nat, n: nat, run: Moves, v: int): nat
    requires m > 0 && ValidMoves(n, run)
  {
    if run == [] then 0
    else
      var before, (t, move) := run[..|run| - 1], run[|run| - 1];
      Got(m, n, before, v)
      + One(Returns(m, SystemRun(m, n, before), t, move) && SystemRun(m, n, run).stack.th[t].val == v)
  }

  // ---------------------------------------------------------------------
  // Where a value can be
  // ---------------------------------------------------------------------

  function OnTheStack(spec: seq<Item>, v: int): nat {
    if spec == [] then 0 else One(spec[0].val == v) + OnTheStack(spec[1..], v)
  }

  /** Inside the stack's call: a push that has not taken effect, or a pop that has. */
  predicate Carries(me: Thread) { Pushing(me.pc) || me.pc.PopCount? || me.pc.PopData? || me.pc.PopFree? }

  /** The thread has the value in its hands, somewhere between its caller and the stack. */
  predicate InFlight(job: Job, me: Thread, v: int) {
    match job
    case InAlloc(data) => data == v
    case HasNode(_, data) => data == v
    case HasPopped(_) => me.val == v
    case InFree => me.val == v
    case _ => Carries(me) && me.val == v
  }

  /** How many of the first `j` threads have it. */
  function Flying(job: seq<Job>, th: seq<Thread>, v: int, j: nat): nat
    requires j <= |job| == |th|
  {
    if j == 0 then 0 else Flying(job, th, v, j - 1) + One(InFlight(job[j - 1], th[j - 1], v))
  }

  lemma {:induction false} FlyingAfter(job: seq<Job>, th: seq<Thread>, job': seq<Job>, th': seq<Thread>,
                                       t: nat, v: int, j: nat)
    requires t < |job| == |th| == |job'| == |th'| && j <= |job|
    requires forall u :: 0 <= u < |job| && u != t ==> job'[u] == job[u] && th'[u] == th[u]
    ensures Flying(job', th', v, j) - Flying(job, th, v, j)
            == if t < j then One(InFlight(job'[t], th'[t], v)) - One(InFlight(job[t], th[t], v)) else 0
  {
    if j > 0 { FlyingAfter(job, th, job', th', t, v, j - 1); }
  }

  /** A value moves between the thread and the stack when the word is swapped, and stays what it is. */
  lemma SwapCarries(m: nat, s: State, t: nat, v: int)
    requires m > 0 && t < |s.th| && Inv(s) && AtCas(s.th[t].pc) && SameWord(m, s.top, s.th[t].copy)
    ensures var s' := Step(m, s, t, Continue);
            && |s'.th| == |s.th|
            && OnTheStack(s'.spec, v) + One(Carries(s'.th[t]) && s'.th[t].val == v)
               == OnTheStack(s.spec, v) + One(Carries(s.th[t]) && s.th[t].val == v)
  {
    var me := s.th[t];
    if me.pc.PopCas? {
      PopTakesEffect(m, s, t, Continue);
    } else {
      assert ([Item(me.node, me.val)] + s.spec)[1..] == s.spec;
    }
  }

  /** Otherwise it stays where it is. */
  lemma QuietCarries(m: nat, s: State, t: nat)
    requires m > 0 && t < |s.th| && ThreadInv(s, s.th[t]) && !s.th[t].pc.Idle?
    requires !(AtCas(s.th[t].pc) && SameWord(m, s.top, s.th[t].copy))
    ensures var s' := Step(m, s, t, Continue);
            && |s'.th| == |s.th|
            && s'.spec == s.spec
            && (Carries(s.th[t]) ==> s'.th[t].val == s.th[t].val)
            && (Carries(s'.th[t]) <==> Carries(s.th[t]) && !s.th[t].pc.PopFree?)
  {
    StepTouchesOne(m, s, t, Continue);
  }

  /** What one move does to a value: a call may bring it in, a return may take it out. */
  lemma MoveConserves(m: nat, sys: System, t: nat, move: Move, v: int)
    requires m > 0 && Owned(sys) && Inv(sys.stack) && t < |sys.job|
    ensures var sys' := SystemStep(m, sys, t, move);
            OnTheStack(sys'.stack.spec, v) + One(InFlight(sys'.job[t], sys'.stack.th[t], v))
            + One(Returns(m, sys, t, move) && sys'.stack.th[t].val == v)
            == OnTheStack(sys.stack.spec, v) + One(InFlight(sys.job[t], sys.stack.th[t], v))
               + One(Begins(sys, t, move) && move.data == v)
  {
    assert JobFits(sys.job[t], sys.stack.th[t].pc, sys.pool.th[t].pc);
    if sys.job[t].InPush? || sys.job[t].InPop? {
      StackMoveConserves(m, sys, t, move, v);
    } else {
      assert InHand(sys.job[t]) ==> sys.job[t].addr in Hands(sys.job);
      OutsideMoveConserves(m, sys, t, move);
    }
  }

  lemma StackMoveConserves(m: nat, sys: System, t: nat, move: Move, v: int)
    requires m > 0 && Fits(sys, |sys.job|) && Inv(sys.stack) && t < |sys.job|
    requires JobFits(sys.job[t], sys.stack.th[t].pc, sys.pool.th[t].pc) && (sys.job[t].InPush? || sys.job[t].InPop?)
    ensures var sys' := SystemStep(m, sys, t, move);
            OnTheStack(sys'.stack.spec, v) + One(InFlight(sys'.job[t], sys'.stack.th[t], v))
            == OnTheStack(sys.stack.spec, v) + One(InFlight(sys.job[t], sys.stack.th[t], v))
  {
    StepMoves(m, sys.stack, t, Some(Continue));
    if AtCas(sys.stack.th[t].pc) && SameWord(m, sys.stack.top, sys.stack.th[t].copy) {
      SwapCarries(m, sys.stack, t, v);
    } else {
      assert ThreadInv(sys.stack, sys.stack.th[t]);
      QuietCarries(m, sys.stack, t);
    }
  }

  /** A call of the stack's machine begins. */
  lemma CallCarries(m: nat, s: State, t: nat, a: Action)
    requires m > 0 && t < |s.th| && s.th[t].pc.Idle? && (a.CallPush? ==> a.addr != 0 && a.addr !in s.live)
    requires !a.CallReturn?
    ensures var s' := Step(m, s, t, a);
            && |s'.th| == |s.th|
            && s'.spec == s.spec
            && (Carries(s'.th[t]) <==> a.CallPush?)
            && (a.CallPush? ==> s'.th[t].val == a.data)
  {
    StepTouchesOne(m, s, t, a);
  }

  lemma OutsideMoveConserves(m: nat, sys: System, t: nat, move: Move)
    requires m > 0 && Fits(sys, |sys.job|) && t < |sys.job|
    requires JobFits(sys.job[t], sys.stack.th[t].pc, sys.pool.th[t].pc) && !sys.job[t].InPush? && !sys.job[t].InPop?
    requires InHand(sys.job[t]) ==> sys.job[t].addr != 0 && sys.job[t].addr !in sys.stack.live
    ensures var sys' := SystemStep(m, sys, t, move);
            && sys'.stack.spec == sys.stack.spec
            && forall v :: One(InFlight(sys'.job[t], sys'.stack.th[t], v))
                           + One(Returns(m, sys, t, move) && sys'.stack.th[t].val == v)
                           == One(InFlight(sys.job[t], sys.stack.th[t], v))
                              + One(Begins(sys, t, move) && move.data == v)
  {
    var a := OnStack(sys, t, move);
    if a.Some? { CallCarries(m, sys.stack, t, a.value); }
    StepMoves(m, sys.pool, t, OnPool(sys, t, move));
  }

  /** No value is lost, changed or doubled: as often as it was given, it is on the stack, on its way, or returned. */
  lemma {:induction false} ValuesConserved(m: nat, n: nat, run: Moves, v: int)
    requires m > 0 && ValidMoves(n, run) && BothCurrent(m, n, run)
    ensures var sys := SystemRun(m, n, run);
            Given(m, n, run, v)
            == OnTheStack(sys.stack.spec, v) + Flying(sys.job, sys.stack.th, v, n) + Got(m, n, run, v)
  {
    if run == [] {
      NothingFlies(n, v, n);
    } else {
      var before, t, move := run[..|run| - 1], run[|run| - 1].0, run[|run| - 1].1;
      var sys, sys' := SystemRun(m, n, before), SystemRun(m, n, run);
      BothCurrentBefore(m, n, run);
      ValuesConserved(m, n, before, v);
      RunKeepsOwned(m, n, before);
      PartsKeepInv(m, n, before);
      MoveConserves(m, sys, t, move, v);
      StepMoves(m, sys.stack, t, OnStack(sys, t, move));
      FlyingAfter(sys.job, sys.stack.th, sys'.job, sys'.stack.th, t, v, n);
    }
  }

  lemma {:induction false} NothingFlies(n: nat, v: int, j: nat)
    requires j <= n
    ensures Flying(Begin(n).job, Begin(n).stack.th, v, j) == 0
  {
    if j > 0 { NothingFlies(n, v, j - 1); }
  }

  predicate CarriesGiven(job: Job, me: Thread, given: int) {
    && (job.InAlloc? || job.HasNode? ==> job.data == given)
    && (job.InPush? ==> me.val == given)
  }

  lemma PushKeepsValue(m: nat, s: State, t: nat)
    requires m > 0 && t < |s.th|
    ensures |Step(m, s, t, Continue).th| == |s.th|
    ensures PushPc(s.th[t].pc) ==> Step(m, s, t, Continue).th[t].val == s.th[t].val
  {
    StepTouchesOne(m, s, t, Continue);
  }

  lemma MoveKeepsValue(m: nat, sys: System, t: nat, move: Move, given: int)
    requires m > 0 && Owned(sys) && t < |sys.job| && CarriesGiven(sys.job[t], sys.stack.th[t], given)
    ensures var sys' := SystemStep(m, sys, t, move);
            CarriesGiven(sys'.job[t], sys'.stack.th[t], if Begins(sys, t, move) then move.data else given)
  {
    assert JobFits(sys.job[t], sys.stack.th[t].pc, sys.pool.th[t].pc);
    assert InHand(sys.job[t]) ==> sys.job[t].addr in Hands(sys.job);
    PushKeepsValue(m, sys.stack, t);
    if sys.job[t].HasNode? { CallCarries(m, sys.stack, t, OnStack(sys, t, move).value); }
  }

  lemma {:induction false} GivenIsCarried(m: nat, n: nat, run: Moves, t: nat)
    requires m > 0 && ValidMoves(n, run) && BothCurrent(m, n, run) && t < n
    ensures var sys := SystemRun(m, n, run); CarriesGiven(sys.job[t], sys.stack.th[t], LastGiven(m, n, run, t))
  {
    if run != [] {
      var before, u, move := run[..|run| - 1], run[|run| - 1].0, run[|run| - 1].1;
      var sys := SystemRun(m, n, before);
      BothCurrentBefore(m, n, run);
      GivenIsCarried(m, n, before, t);
      if u == t {
        RunKeepsOwned(m, n, before);
        MoveKeepsValue(m, sys, t, move, LastGiven(m, n, before, t));
      } else {
        StepMoves(m, sys.stack, u, OnStack(sys, u, move));
      }
    }
  }

  /** A thread in a push carries the value that its caller gave, and so does its node once it is filled. */
  lemma PushCarriesItsValue(m: nat, n: nat, run: Moves, t: nat)
    requires m > 0 && ValidMoves(n, run) && BothCurrent(m, n, run) && t < n
    ensures var sys := SystemRun(m, n, run);
            var me, given := sys.stack.th[t], LastGiven(m, n, run, t);
            && (sys.job[t].InAlloc? || sys.job[t].HasNode? ==> sys.job[t].data == given)
            && (sys.job[t].InPush? ==> me.val == given)
            && (sys.job[t].InPush? && Pushing(me.pc) && !me.pc.PushInit? ==> DataOf(sys.stack.heap, me.node) == given)
  {
    GivenIsCarried(m, n, run, t);
    PartsKeepInv(m, n, run);
    assert ThreadInv(SystemRun(m, n, run).stack, SystemRun(m, n, run).stack.th[t]);
  }

  /** Both, as long as each counter has drawn no more numbers than there are tag values. */
  lemma ValuesInLimit(m: nat, n: nat, run: Moves)
    requires m > 0 && ValidMoves(n, run)
    requires var sys := SystemRun(m, n, run); n <= 1 || (sys.stack.unique <= m && sys.pool.unique <= m)
    ensures var sys := SystemRun(m, n, run);
            forall v :: Given(m, n, run, v)
                        == OnTheStack(sys.stack.spec, v) + Flying(sys.job, sys.stack.th, v, n) + Got(m, n, run, v)
    ensures forall t :: 0 <= t < n && SystemRun(m, n, run).job[t].InPush? ==>
              SystemRun(m, n, run).stack.th[t].val == LastGiven(m, n, run, t)
  {
    StackWithPoolInLimit(m, n, run);
    var sys := SystemRun(m, n, run);
    forall v
      ensures Given(m, n, run, v)
              == OnTheStack(sys.stack.spec, v) + Flying(sys.job, sys.stack.th, v, n) + Got(m, n, run, v)
    {
      ValuesConserved(m, n, run, v);
    }
    forall t | 0 <= t < n && SystemRun(m, n, run).job[t].InPush?
      ensures SystemRun(m, n, run).stack.th[t].val == LastGiven(m, n, run, t)
    {
      PushCarriesItsValue(m, n, run, t);
    }
  }
}

/**
 The stack together with its node pool. The pool is the same compare-and-swap
 algorithm with a word and serial numbers of its own: Alloc is its pop, Free its
 push of the node as it is, and an Alloc that finds the pool empty makes a node.
 The machine's `count` is then the number of free nodes, `capacity - use_count`,
 and the data it reads along with a node plays no part.
 */
module LockFreePool {
  import opened Options
  import opened LockFreeStack

  /** Where a thread is in a call of the stack; a node in hand belongs to neither machine. */
  datatype Job =
    | Rest
    | InAlloc(data: int) | HasNode(addr: nat, data: int) | InPush
    | InPop | HasPopped(addr: nat) | InFree

  datatype System = System(stack: State, pool: State, job: seq<Job>, made: set<nat>)

  /** A resting thread begins a call, any other goes on; `spare` is the address `new` would return. */
  datatype Move = Push(data: int) | Pop | Go(spare: nat)

  type Moves = seq<(nat, Move)>

  predicate Fits(sys: System, n: nat) { |sys.stack.th| == |sys.pool.th| == |sys.job| == n }

  function Begin(n: nat): System { System(Init(n), Init(n), seq(n, _ => Rest), {}) }

  /** The pool's word is null for the Alloc that reads it now. */
  predicate FindsEmpty(pool: State, t: nat)
    requires t < |pool.th|
  {
    pool.th[t].pc.PopRead? && pool.top.addr == 0
  }

  predicate IsNew(sys: System, move: Move) { move.Go? && move.spare != 0 && move.spare !in sys.made }

  predicate MakesNode(sys: System, t: nat, move: Move)
    requires t < |sys.job| <= |sys.pool.th|
  {
    sys.job[t].InAlloc? && FindsEmpty(sys.pool, t) && IsNew(sys, move)
  }

  function OnStack(sys: System, t: nat, move: Move): Option<Action>
    requires t < |sys.job|
  {
    match sys.job[t]
    case Rest => if move.Pop? then Some(CallPop) else None
    case HasNode(addr, data) => Some(CallPush(addr, data))
    case InPush => Some(Continue)
    case InPop => Some(Continue)
    case _ => None
  }

  function OnPool(sys: System, t: nat, move: Move): Option<Action>
    requires t < |sys.job| <= |sys.pool.th|
  {
    match sys.job[t]
    case Rest => if move.Push? then Some(CallPop) else None
    case InAlloc(_) => if FindsEmpty(sys.pool, t) && !IsNew(sys, move) then None else Some(Continue)
    case HasPopped(addr) => Some(CallReturn(addr))
    case InFree => Some(Continue)
    case _ => None
  }

  function Apply(m: nat, s: State, t: nat, a: Option<Action>): State
    requires m > 0 && t < |s.th|
  {
    if a.Some? then Step(m, s, t, a.value) else s
  }

  /** The job after a step that leads the two machines to `stack` and `pool`. */
  function NextJob(sys: System, t: nat, move: Move, stack: State, pool: State): Job
    requires t < |sys.job| && |sys.job| == |sys.stack.th| == |sys.pool.th| == |stack.th| == |pool.th|
  {
    match sys.job[t]
    case Rest => (match move case Push(data) => InAlloc(data) case Pop => InPop case Go(_) => Rest)
    case InAlloc(data) =>
      if MakesNode(sys, t, move) then HasNode(move.spare, data)
      else if sys.pool.th[t].pc.PopFree? then HasNode(sys.pool.th[t].node, data)
      else InAlloc(data)
    case HasNode(_, _) => InPush
    case InPush => if stack.th[t].pc.Idle? then Rest else InPush
    case InPop =>
      if sys.stack.th[t].pc.PopFree? then HasPopped(sys.stack.th[t].node)
      else if stack.th[t].pc.Idle? then Rest
      else InPop
    case HasPopped(_) => InFree
    case InFree => if pool.th[t].pc.Idle? then Rest else InFree
  }

  function SystemStep(m: nat, sys: System, t: nat, move: Move): (sys': System)
    requires m > 0 && t < |sys.job| && Fits(sys, |sys.job|)
    ensures Fits(sys', |sys.job|)
  {
    StackKeepsThreads(m, sys.stack, t, OnStack(sys, t, move));
    StackKeepsThreads(m, sys.pool, t, OnPool(sys, t, move));
    var stack := Apply(m, sys.stack, t, OnStack(sys, t, move));
    var pool := Apply(m, sys.pool, t, OnPool(sys, t, move));
    System(stack, pool, sys.job[t := NextJob(sys, t, move, stack, pool)],
           if MakesNode(sys, t, move) then sys.made + {move.spare} else sys.made)
  }

  lemma StackKeepsThreads(m: nat, s: State, t: nat, a: Option<Action>)
    requires m > 0 && t < |s.th|
    ensures |Apply(m, s, t, a).th| == |s.th|
  {
    if a.Some? { StepTouchesOne(m, s, t, a.value); }
  }

  predicate ValidMoves(n: nat, run: Moves) { forall k :: 0 <= k < |run| ==> run[k].0 < n }

  function SystemRun(m: nat, n: nat, run: Moves): (sys: System)
    requires m > 0 && ValidMoves(n, run)
    ensures Fits(sys, n)
  {
    if run == [] then Begin(n)
    else SystemStep(m, SystemRun(m, n, run[..|run| - 1]), run[|run| - 1].0, run[|run| - 1].1)
  }

  // ---------------------------------------------------------------------
  // Each part runs its own machine
  // ---------------------------------------------------------------------

  function AsSchedule(t: nat, a: Option<Action>): Schedule { if a.Some? then [(t, a.value)] else [] }

  function StackPart(m: nat, n: nat, run: Moves): (part: Schedule)
    requires m > 0 && ValidMoves(n, run)
    ensures ValidRun(n, part)
  {
    if run == [] then []
    else
      var before, (t, move) := run[..|run| - 1], run[|run| - 1];
      StackPart(m, n, before) + AsSchedule(t, OnStack(SystemRun(m, n, before), t, move))
  }

  function PoolPart(m: nat, n: nat, run: Moves): (part: Schedule)
    requires m > 0 && ValidMoves(n, run)
    ensures ValidRun(n, part)
  {
    if run == [] then []
    else
      var before, (t, move) := run[..|run| - 1], run[|run| - 1];
      PoolPart(m, n, before) + AsSchedule(t, OnPool(SystemRun(m, n, before), t, move))
  }

  lemma OneMoreStep(m: nat, n: nat, run: Schedule, t: nat, a: Option<Action>)
    requires m > 0 && t < n && ValidRun(n, run)
    ensures Run(m, n, run + AsSchedule(t, a)) == Apply(m, Run(m, n, run), t, a)
  {
    var longer := run + AsSchedule(t, a);
    if a.Some? { assert longer[..|longer| - 1] == run; } else { assert longer == run; }
  }

  lemma {:induction false} PartsRun(m: nat, n: nat, run: Moves)
    requires m > 0 && ValidMoves(n, run)
    ensures SystemRun(m, n, run).stack == Run(m, n, StackPart(m, n, run))
    ensures SystemRun(m, n, run).pool == Run(m, n, PoolPart(m, n, run))
  {
    if run != [] {
      var before, t, move := run[..|run| - 1], run[|run| - 1].0, run[|run| - 1].1;
      var sys := SystemRun(m, n, before);
      PartsRun(m, n, before);
      OneMoreStep(m, n, StackPart(m, n, before), t, OnStack(sys, t, move));
      OneMoreStep(m, n, PoolPart(m, n, before), t, OnPool(sys, t, move));
    }
  }

  // ---------------------------------------------------------------------
  // Who has which node
  // ---------------------------------------------------------------------

  predicate PushPc(pc: Pc) { Pushing(pc) || pc.PushCount? }

  predicate PopPc(pc: Pc) { Popping(pc) || pc.PopCount? || pc.PopData? || pc.PopFree? }

  /** A node enters the machine with this call. */
  predicate Enters(s: State, me: Thread, a: Action) {
    me.pc.Idle? && (a.CallPush? || a.CallReturn?) && a.addr != 0 && a.addr !in s.live
  }

  /** What a step does to the nodes in use and to the kind of call its thread is in. */
  predicate Moved(s: State, s': State, t: nat, a: Option<Action>)
    requires t < |s.th|
  {
    && |s'.th| == |s.th|
    && (forall u :: 0 <= u < |s.th| && u != t ==> s'.th[u] == s.th[u])
    && (a.None? ==> s' == s)
    && (a.Some? ==>
          var me, pc := s.th[t], s'.th[t].pc;
          && s'.live == (if Enters(s, me, a.value) then s.live + {a.value.addr}
                         else if me.pc.PopFree? then s.live - {me.node} else s.live)
          && (me.pc.Idle? ==>
                if Enters(s, me, a.value) then PushPc(pc) else if a.value.CallPop? then PopPc(pc) else pc.Idle?)
          && (PushPc(me.pc) ==> PushPc(pc) || pc.Idle?)
          && (PopPc(me.pc) ==> if me.pc.PopFree? || FindsEmpty(s, t) then pc.Idle? else PopPc(pc)))
  }

  lemma StepMoves(m: nat, s: State, t: nat, a: Option<Action>)
    requires m > 0 && t < |s.th|
    ensures Moved(s, Apply(m, s, t, a), t, a)
  {
    if a.Some? { StepTouchesOne(m, s, t, a.value); }
  }

  predicate InHand(job: Job) { job.HasNode? || job.HasPopped? }

  /** The node in a thread's hand. */
  function Hand(job: Job): set<nat> { if InHand(job) then {job.addr} else {} }

  function Hands(job: seq<Job>): set<nat> { set t | 0 <= t < |job| && InHand(job[t]) :: job[t].addr }

  predicate JobFits(job: Job, onStack: Pc, onPool: Pc) {
    match job
    case InAlloc(_) => onStack.Idle? && PopPc(onPool)
    case InPush => PushPc(onStack) && onPool.Idle?
    case InPop => PopPc(onStack) && onPool.Idle?
    case InFree => onStack.Idle? && PushPc(onPool)
    case _ => onStack.Idle? && onPool.Idle?
  }

  predicate Distinct(job: seq<Job>) {
    forall t, u :: 0 <= t < |job| && 0 <= u < |job| && t != u ==> Hand(job[t]) !! Hand(job[u])
  }

  /** Every node that was made is in exactly one place: in use by the stack, by the pool, or in one thread's hand. */
  ghost predicate Owned(sys: System) {
    && Fits(sys, |sys.job|)
    && sys.made == sys.stack.live + sys.pool.live + Hands(sys.job)
    && sys.stack.live !! sys.pool.live
    && Hands(sys.job) !! sys.stack.live + sys.pool.live
    && Distinct(sys.job)
    && 0 !in sys.made
    && (forall t :: 0 <= t < |sys.job| ==> JobFits(sys.job[t], sys.stack.th[t].pc, sys.pool.th[t].pc))
  }

  lemma HandsAfter(job: seq<Job>, t: nat, j: Job)
    requires t < |job| && Distinct(job) && Hand(j) !! Hands(job) - Hand(job[t])
    ensures Hand(job[t]) <= Hands(job) && Distinct(job[t := j])
    ensures Hands(job[t := j]) == Hands(job) - Hand(job[t]) + Hand(j)
  {
    var after := job[t := j];
    forall a | a in Hands(job) - Hand(job[t]) + Hand(j) ensures a in Hands(after) {
      if a in Hand(j) {
        assert after[t] == j;
      } else {
        var u :| 0 <= u < |job| && InHand(job[u]) && job[u].addr == a;
        assert after[u] == job[u];
      }
    }
    forall a | a in Hands(after) ensures a in Hands(job) - Hand(job[t]) + Hand(j) {
      var u :| 0 <= u < |after| && InHand(after[u]) && after[u].addr == a;
      assert u != t ==> after[u] == job[u] && a in Hand(job[u]) && Hand(job[u]) !! Hand(job[t]);
    }
    forall u | 0 <= u < |job| && u != t ensures Hand(after[u]) !! Hand(j) {
      assert Hand(job[u]) !! Hand(job[t]) && Hand(job[u]) <= Hands(job);
    }
  }

  /** One step of the system, as far as nodes and calls are concerned. */
  predicate SystemMoved(sys: System, sys': System, t: nat, move: Move) {
    && Fits(sys, |sys.job|) && Fits(sys', |sys.job|) && t < |sys.job|
    && Moved(sys.stack, sys'.stack, t, OnStack(sys, t, move))
    && Moved(sys.pool, sys'.pool, t, OnPool(sys, t, move))
    && sys'.job == sys.job[t := NextJob(sys, t, move, sys'.stack, sys'.pool)]
    && sys'.made == (if MakesNode(sys, t, move) then sys.made + {move.spare} else sys.made)
    && JobFits(sys.job[t], sys.stack.th[t].pc, sys.pool.th[t].pc)
    && (sys.stack.th[t].pc.PopFree? ==> sys.stack.th[t].node in sys.stack.live)
    && (sys.pool.th[t].pc.PopFree? ==> sys.pool.th[t].node in sys.pool.live)
  }

  lemma JobFitsAfter(sys: System, sys': System, t: nat, move: Move)
    requires SystemMoved(sys, sys', t, move)
    requires InHand(sys.job[t]) ==> sys.job[t].addr != 0 && sys.job[t].addr !in sys.stack.live + sys.pool.live
    ensures JobFits(sys'.job[t], sys'.stack.th[t].pc, sys'.pool.th[t].pc)
  {
  }

  /** At most one node changes hands in a step: out of the hand into a machine, or into it from a machine or `new`. */
  lemma NodesAfter(sys: System, sys': System, t: nat, move: Move)
    requires SystemMoved(sys, sys', t, move)
    requires InHand(sys.job[t]) ==> sys.job[t].addr != 0 && sys.job[t].addr !in sys.stack.live + sys.pool.live
    ensures var before, after, makes := sys.job[t], sys'.job[t], MakesNode(sys, t, move);
            && (Hand(before) == {} || Hand(after) == {})
            && sys'.stack.live == (if before.HasNode? then sys.stack.live + Hand(before)
                                   else if after.HasPopped? then sys.stack.live - Hand(after) else sys.stack.live)
            && sys'.pool.live == (if before.HasPopped? then sys.pool.live + Hand(before)
                                  else if after.HasNode? && !makes then sys.pool.live - Hand(after) else sys.pool.live)
            && (after.HasPopped? ==> Hand(after) <= sys.stack.live)
            && (after.HasNode? ==> if makes then Hand(after) !! sys.made + {0} else Hand(after) <= sys.pool.live)
            && sys'.made == (if makes then sys.made + Hand(after) else sys.made)
            && (makes ==> after.HasNode?)
  {
  }

  lemma OwnedAfter(sys: System, sys': System, t: nat, move: Move)
    requires Owned(sys) && SystemMoved(sys, sys', t, move)
    ensures Owned(sys')
  {
    assert InHand(sys.job[t]) ==> sys.job[t].addr in Hands(sys.job);
    JobFitsAfter(sys, sys', t, move);
    NodesAfter(sys, sys', t, move);
    HandsAfter(sys.job, t, sys'.job[t]);
  }

  lemma SystemStepKeepsOwned(m: nat, sys: System, t: nat, move: Move)
    requires m > 0 && Owned(sys) && t < |sys.job| && Inv(sys.stack) && Inv(sys.pool)
    ensures Owned(SystemStep(m, sys, t, move))
  {
    StepMoves(m, sys.stack, t, OnStack(sys, t, move));
    StepMoves(m, sys.pool, t, OnPool(sys, t, move));
    assert ThreadInv(sys.stack, sys.stack.th[t]) && ThreadInv(sys.pool, sys.pool.th[t]);
    assert JobFits(sys.job[t], sys.stack.th[t].pc, sys.pool.th[t].pc);
    OwnedAfter(sys, SystemStep(m, sys, t, move), t, move);
  }

  predicate BothCurrent(m: nat, n: nat, run: Moves)
    requires m > 0 && ValidMoves(n, run)
  {
    CurrentRun(m, n, StackPart(m, n, run)) && CurrentRun(m, n, PoolPart(m, n, run))
  }

  lemma CurrentBefore(m: nat, n: nat, run: Schedule, t: nat, a: Option<Action>)
    requires m > 0 && t < n && ValidRun(n, run) && CurrentRun(m, n, run + AsSchedule(t, a))
    ensures CurrentRun(m, n, run)
  {
    var longer := run + AsSchedule(t, a);
    if a.Some? { assert longer[..|longer| - 1] == run; } else { assert longer == run; }
  }

  lemma BothCurrentBefore(m: nat, n: nat, run: Moves)
    requires m > 0 && run != [] && ValidMoves(n, run) && BothCurrent(m, n, run)
    ensures BothCurrent(m, n, run[..|run| - 1])
  {
    var before, t, move := run[..|run| - 1], run[|run| - 1].0, run[|run| - 1].1;
    var sys := SystemRun(m, n, before);
    CurrentBefore(m, n, StackPart(m, n, before), t, OnStack(sys, t, move));
    CurrentBefore(m, n, PoolPart(m, n, before), t, OnPool(sys, t, move));
  }

  lemma PartsKeepInv(m: nat, n: nat, run: Moves)
    requires m > 0 && ValidMoves(n, run) && BothCurrent(m, n, run)
    ensures Inv(SystemRun(m, n, run).stack) && Inv(SystemRun(m, n, run).pool)
  {
    PartsRun(m, n, run);
    RunKeepsInv(m, n, StackPart(m, n, run));
    RunKeepsInv(m, n, PoolPart(m, n, run));
  }

  lemma {:induction false} RunKeepsOwned(m: nat, n: nat, run: Moves)
    requires m > 0 && ValidMoves(n, run) && BothCurrent(m, n, run)
    ensures Owned(SystemRun(m, n, run))
  {
    if run != [] {
      var before := run[..|run| - 1];
      BothCurrentBefore(m, n, run);
      PartsKeepInv(m, n, before);
      RunKeepsOwned(m, n, before);
      SystemStepKeepsOwned(m, SystemRun(m, n, before), run[|run| - 1].0, run[|run| - 1].1);
    }
  }

  /** The pool hands out only nodes that are not in use, and takes back only nodes that are not free. */
  predicate PoolKeepsPromise(sys: System) {
    forall t :: 0 <= t < |sys.job| && InHand(sys.job[t]) ==>
      && sys.job[t].addr != 0 && sys.job[t].addr !in sys.stack.live && sys.job[t].addr !in sys.pool.live
      && forall u :: 0 <= u < |sys.job| && u != t && InHand(sys.job[u]) ==> sys.job[u].addr != sys.job[t].addr
  }

  predicate AllRight(sys: System) { Right(sys.stack) && Right(sys.pool) && PoolKeepsPromise(sys) }

  /** Stack and pool together: as long as the pops of both are current, both are right, and
      the promise on which the stack relies is kept. */
  lemma StackWithPool(m: nat, n: nat, run: Moves)
    requires m > 0 && ValidMoves(n, run) && BothCurrent(m, n, run)
    ensures var sys := SystemRun(m, n, run); AllRight(sys) && Owned(sys)
  {
    var sys := SystemRun(m, n, run);
    RunKeepsOwned(m, n, run);
    PartsKeepInv(m, n, run);
    InvIsRight(sys.stack);
    InvIsRight(sys.pool);
    forall t | 0 <= t < |sys.job| && InHand(sys.job[t])
      ensures sys.job[t].addr in Hands(sys.job)
      ensures forall u :: 0 <= u < |sys.job| && u != t && InHand(sys.job[u]) ==> sys.job[u].addr != sys.job[t].addr
    {
      forall u | 0 <= u < |sys.job| && u != t && InHand(sys.job[u]) ensures sys.job[u].addr != sys.job[t].addr {
        assert Hand(sys.job[t]) !! Hand(sys.job[u]);
      }
    }
  }

  /** Each word has its own numbers, and `m` of each may be drawn. */
  lemma StackWithPoolInLimit(m: nat, n: nat, run: Moves)
    requires m > 0 && ValidMoves(n, run)
    requires var sys := SystemRun(m, n, run); n <= 1 || (sys.stack.unique <= m && sys.pool.unique <= m)
    ensures BothCurrent(m, n, run)
    ensures var sys := SystemRun(m, n, run); AllRight(sys) && Owned(sys)
  {
    PartsRun(m, n, run);
    FewNumbersAreRight(m, n, StackPart(m, n, run));
    FewNumbersAreRight(m, n, PoolPart(m, n, run));
    StackWithPool(m, n, run);
  }
}

/**
 The limit on serial numbers is the same with the real pool, which hands out the
 node that was freed last: two threads lose a value as soon as `m + 1` numbers
 have been drawn.
 */
module LockFreePoolAba {
  import opened Modular
  import opened LockFreeStack
  import opened LockFreePool
  import opened Options

  ghost predicate Reached(m: nat, n: nat, run: Moves, sys: System) {
    m > 0 && n >= 2 && ValidMoves(n, run) && sys == SystemRun(m, n, run)
  }

  /** Only thread `t` has moved. */
  predicate Others(sys: System, sys': System, t: nat) {
    && |sys'.job| == |sys'.stack.th| == |sys'.pool.th| == |sys.job| == |sys.stack.th| == |sys.pool.th|
    && t < |sys.job|
    && sys'.job == sys.job[t := sys'.job[t]]
    && sys'.stack.th == sys.stack.th[t := sys'.stack.th[t]]
    && sys'.pool.th == sys.pool.th[t := sys'.pool.th[t]]
  }

  /** One move of thread `t`, which alone has moved since `sys0`. */
  lemma Do(m: nat, n: nat, sys0: System, run: Moves, sys: System, t: nat, move: Move)
    returns (run': Moves, sys': System)
    requires Reached(m, n, run, sys) && t < n && Others(sys0, sys, t)
    ensures Reached(m, n, run', sys') && sys' == SystemStep(m, sys, t, move)
    ensures Others(sys, sys', t) && Others(sys0, sys', t)
  {
    run', sys' := run + [(t, move)], SystemStep(m, sys, t, move);
    assert run'[..|run'| - 1] == run;
    StepMoves(m, sys.stack, t, OnStack(sys, t, move));
    StepMoves(m, sys.pool, t, OnPool(sys, t, move));
  }

  /** In a pop that does not end with the next step. */
  predicate PopsOn(s: State, t: nat)
    requires t < |s.th|
  {
    PopPc(s.th[t].pc) && !s.th[t].pc.PopFree? && !FindsEmpty(s, t)
  }

  /** A move inside a call of the stack. */
  lemma OnStackOnly(m: nat, n: nat, sys0: System, run: Moves, sys: System, t: nat) returns (run': Moves, sys': System)
    requires Reached(m, n, run, sys) && t < n && Others(sys0, sys, t)
    requires sys.job[t].InPush? || sys.job[t].InPop?
    requires sys.job[t].InPush? ==> Pushing(sys.stack.th[t].pc)
    requires sys.job[t].InPop? ==> PopsOn(sys.stack, t)
    ensures Reached(m, n, run', sys') && Others(sys0, sys', t)
    ensures sys'.stack == Step(m, sys.stack, t, Continue) && sys'.pool == sys.pool
    ensures sys'.job == sys.job && sys'.made == sys.made
  {
    run', sys' := Do(m, n, sys0, run, sys, t, Go(0));
    StepMoves(m, sys.stack, t, Some(Continue));
    StillPushing(m, sys.stack, t);
  }

  lemma StillPushing(m: nat, s: State, t: nat)
    requires m > 0 && t < |s.th|
    ensures |Step(m, s, t, Continue).th| == |s.th|
    ensures Pushing(s.th[t].pc) ==> !Step(m, s, t, Continue).th[t].pc.Idle?
  {
    StepTouchesOne(m, s, t, Continue);
  }

  /** A move inside an Alloc or Free. */
  lemma OnPoolOnly(m: nat, n: nat, sys0: System, run: Moves, sys: System, t: nat) returns (run': Moves, sys': System)
    requires Reached(m, n, run, sys) && t < n && Others(sys0, sys, t)
    requires sys.job[t].InAlloc? || sys.job[t].InFree?
    requires sys.job[t].InFree? ==> Pushing(sys.pool.th[t].pc)
    requires sys.job[t].InAlloc? ==> PopsOn(sys.pool, t)
    ensures Reached(m, n, run', sys') && Others(sys0, sys', t)
    ensures sys'.pool == Step(m, sys.pool, t, Continue) && sys'.stack == sys.stack
    ensures sys'.job == sys.job && sys'.made == sys.made
  {
    run', sys' := Do(m, n, sys0, run, sys, t, Go(0));
    StillPushing(m, sys.pool, t);
  }

  predicate Resting(sys: System, t: nat) {
    t < |sys.job| && Fits(sys, |sys.job|) && sys.job[t].Rest? && sys.stack.th[t].pc.Idle? && sys.pool.th[t].pc.Idle?
  }

  lemma BeginPop(m: nat, n: nat, run0: Moves, sys0: System, t: nat) returns (run: Moves, sys: System)
    requires Reached(m, n, run0, sys0) && t < n && Resting(sys0, t)
    ensures Reached(m, n, run, sys) && Others(sys0, sys, t) && sys.pool == sys0.pool && sys.made == sys0.made
    ensures sys.job[t].InPop? && sys.stack.th[t].pc.PopDraw?
    ensures sys.stack == sys0.stack.(th := sys.stack.th)
  {
    run, sys := Do(m, n, sys0, run0, sys0, t, Pop);
  }

  lemma BeginAlloc(m: nat, n: nat, run0: Moves, sys0: System, t: nat, data: int) returns (run: Moves, sys: System)
    requires Reached(m, n, run0, sys0) && t < n && Resting(sys0, t)
    ensures Reached(m, n, run, sys) && Others(sys0, sys, t) && sys.stack == sys0.stack && sys.made == sys0.made
    ensures sys.job[t] == InAlloc(data) && sys.pool.th[t].pc.PopDraw?
    ensures sys.pool == sys0.pool.(th := sys.pool.th)
  {
    run, sys := Do(m, n, sys0, run0, sys0, t, Push(data));
  }

  /** A pop from its first step to its compare-and-swap. */
  lemma PopHead(m: nat, s: State, t: nat) returns (s1: State, s2: State, s3: State)
    requires m > 0 && t < |s.th| && s.th[t].pc.PopDraw? && s.top.addr != 0
    ensures s1 == Step(m, s, t, Continue) && |s1.th| == |s.th| && s1.th[t].pc.PopRead? && s1.top == s.top
    ensures s2 == Step(m, s1, t, Continue) && |s2.th| == |s.th| && s2.th[t].pc.PopNext?
    ensures s2.th[t].copy == s.top && s2 == s.(unique := s.unique + 1, th := s2.th)
    ensures s3 == Step(m, s2, t, Continue) && |s3.th| == |s.th| && s3.th[t].pc.PopCas?
    ensures s3.th[t].copy == s.top && s3.th[t].next == NextOf(s.heap, s.top.addr) && s3.th[t].num == s.unique + 1
    ensures s3 == s.(unique := s.unique + 1, th := s3.th)
  {
    s1 := Step(m, s, t, Continue);
    assert s1 == s.(unique := s.unique + 1, th := s1.th) && s1.th[t].num == s.unique + 1;
    s2 := Step(m, s1, t, Continue);
    assert s2 == s1.(th := s2.th) && s2.th[t].copy == s.top && s2.th[t].num == s.unique + 1;
    s3 := Step(m, s2, t, Continue);
  }

  /** An Alloc that finds the pool empty. */
  lemma AllocNew(m: nat, n: nat, run0: Moves, sys0: System, t: nat, data: int, addr: nat)
    returns (run: Moves, sys: System)
    requires Reached(m, n, run0, sys0) && t < n && Resting(sys0, t)
    requires sys0.pool.top.addr == 0 && addr != 0 && addr !in sys0.made
    ensures Reached(m, n, run, sys) && Others(sys0, sys, t)
    ensures sys.job[t] == HasNode(addr, data) && sys.stack == sys0.stack && sys.pool.th[t].pc.Idle?
    ensures sys.pool == sys0.pool.(unique := sys0.pool.unique + 1, th := sys.pool.th)
    ensures sys.made == sys0.made + {addr}
  {
    run, sys := BeginAlloc(m, n, run0, sys0, t, data);
    run, sys := OnPoolOnly(m, n, sys0, run, sys, t);
    assert sys.pool == sys0.pool.(unique := sys0.pool.unique + 1, th := sys.pool.th) && sys.pool.th[t].pc.PopRead?;
    run, sys := MakeNode(m, n, sys0, run, sys, t, addr);
  }

  lemma MakeNode(m: nat, n: nat, sys0: System, run0: Moves, sys1: System, t: nat, addr: nat)
    returns (run: Moves, sys: System)
    requires Reached(m, n, run0, sys1) && t < n && Others(sys0, sys1, t)
    requires sys1.job[t].InAlloc? && FindsEmpty(sys1.pool, t) && addr != 0 && addr !in sys1.made
    ensures Reached(m, n, run, sys) && Others(sys0, sys, t) && sys.stack == sys1.stack
    ensures sys.job[t] == HasNode(addr, sys1.job[t].data) && sys.pool.th[t].pc.Idle?
    ensures sys.pool == sys1.pool.(th := sys.pool.th) && sys.made == sys1.made + {addr}
  {
    run, sys := Do(m, n, sys0, run0, sys1, t, Go(addr));
  }

  /** A push that has cleared its node and will draw its number next. */
  lemma PushToDraw(m: nat, n: nat, run0: Moves, sys0: System, t: nat) returns (run: Moves, sys: System)
    requires Reached(m, n, run0, sys0) && t < n && sys0.job[t].HasNode? && sys0.stack.th[t].pc.Idle?
    requires sys0.job[t].addr != 0 && sys0.job[t].addr !in sys0.stack.live
    ensures Reached(m, n, run, sys) && Others(sys0, sys, t) && sys.pool == sys0.pool && sys.made == sys0.made
    ensures sys.job[t].InPush? && sys.stack.th[t].pc.PushDraw? && sys.stack.th[t].node == sys0.job[t].addr
    ensures NextOf(sys.stack.heap, sys0.job[t].addr) == 0
    ensures sys.stack.top == sys0.stack.top && sys.stack.spec == sys0.stack.spec
    ensures sys.stack.unique == sys0.stack.unique
  {
    run, sys := Do(m, n, sys0, run0, sys0, t, Go(0));
    assert sys.job[t].InPush? && sys.stack.th[t].pc.PushInit? && sys.stack.th[t].node == sys0.job[t].addr;
    run, sys := OnStackOnly(m, n, sys0, run, sys, t);
  }

  lemma DrawNumber(m: nat, n: nat, run0: Moves, sys0: System, t: nat) returns (run: Moves, sys: System)
    requires Reached(m, n, run0, sys0) && t < n && sys0.job[t].InPush? && sys0.stack.th[t].pc.PushDraw?
    ensures Reached(m, n, run, sys) && Others(sys0, sys, t) && sys.pool == sys0.pool && sys.made == sys0.made
    ensures sys.job == sys0.job
    ensures sys.stack.th[t] == sys0.stack.th[t].(pc := PushRead, num := sys0.stack.unique + 1)
    ensures sys.stack == sys0.stack.(unique := sys0.stack.unique + 1, th := sys.stack.th)
  {
    run, sys := OnStackOnly(m, n, sys0, run0, sys0, t);
  }

  /** The rest of a push that has drawn its number, with nobody else moving. */
  lemma EndPush(m: nat, n: nat, run0: Moves, sys0: System, t: nat) returns (run: Moves, sys: System)
    requires Reached(m, n, run0, sys0) && t < n && sys0.job[t].InPush? && sys0.stack.th[t].pc.PushRead?
    ensures Reached(m, n, run, sys) && Others(sys0, sys, t) && sys.pool == sys0.pool && sys.made == sys0.made
    ensures sys.job[t].Rest? && sys.stack.th[t].pc.Idle?
    ensures sys.stack.unique == sys0.stack.unique
    ensures sys.stack.top == Word(sys0.stack.th[t].num, sys0.stack.th[t].node)
    ensures NextOf(sys.stack.heap, sys0.stack.th[t].node) == sys0.stack.top.addr
    ensures |sys.stack.spec| == |sys0.stack.spec| + 1
  {
    run, sys := OnStackOnly(m, n, sys0, run0, sys0, t);
    assert sys.stack == sys0.stack.(th := sys.stack.th) && sys.job == sys0.job;
    assert sys.stack.th[t] == sys0.stack.th[t].(pc := PushLink, copy := sys0.stack.top);
    run, sys := FinishPush(m, n, run, sys, t);
  }

  /** A push of the node in hand, with nobody else moving. */
  lemma PushNode(m: nat, n: nat, run0: Moves, sys0: System, t: nat) returns (run: Moves, sys: System)
    requires Reached(m, n, run0, sys0) && t < n && sys0.job[t].HasNode? && sys0.stack.th[t].pc.Idle?
    requires sys0.job[t].addr != 0 && sys0.job[t].addr !in sys0.stack.live && sys0.pool.th[t].pc.Idle?
    ensures Reached(m, n, run, sys) && Others(sys0, sys, t) && sys.pool == sys0.pool && sys.made == sys0.made
    ensures Resting(sys, t)
    ensures sys.stack.unique == sys0.stack.unique + 1 && sys.stack.top == Word(sys.stack.unique, sys0.job[t].addr)
    ensures NextOf(sys.stack.heap, sys0.job[t].addr) == sys0.stack.top.addr && |sys.stack.spec| == |sys0.stack.spec| + 1
  {
    run, sys := PushToDraw(m, n, run0, sys0, t);
    run, sys := DrawNumber(m, n, run, sys, t);
    run, sys := EndPush(m, n, run, sys, t);
  }

  lemma FinishPush(m: nat, n: nat, run0: Moves, sys0: System, t: nat) returns (run: Moves, sys: System)
    requires Reached(m, n, run0, sys0) && t < n && sys0.job[t].InPush? && sys0.stack.th[t].pc.PushLink?
    requires sys0.stack.th[t].copy == sys0.stack.top
    ensures Reached(m, n, run, sys) && Others(sys0, sys, t) && sys.pool == sys0.pool && sys.made == sys0.made
    ensures sys.job[t].Rest? && sys.stack.th[t].pc.Idle?
    ensures sys.stack.unique == sys0.stack.unique
    ensures sys.stack.top == Word(sys0.stack.th[t].num, sys0.stack.th[t].node)
    ensures NextOf(sys.stack.heap, sys0.stack.th[t].node) == sys0.stack.top.addr
    ensures |sys.stack.spec| == |sys0.stack.spec| + 1
  {
    run, sys := OnStackOnly(m, n, sys0, run0, sys0, t);
    assert sys.stack.th[t].pc.PushCas? && NextOf(sys.stack.heap, sys0.stack.th[t].node) == sys0.stack.top.addr;
    run, sys := OnStackOnly(m, n, sys0, run, sys, t);
    assert sys.stack.th[t].pc.PushCount?;
    run, sys := Do(m, n, sys0, run, sys, t, Go(0));
  }

  /** A pop that has copied the word. */
  lemma PopToNext(m: nat, n: nat, run0: Moves, sys0: System, t: nat) returns (run: Moves, sys: System)
    requires Reached(m, n, run0, sys0) && t < n && Resting(sys0, t) && sys0.stack.top.addr != 0
    ensures Reached(m, n, run, sys) && Others(sys0, sys, t) && sys.pool == sys0.pool && sys.made == sys0.made
    ensures sys.job[t].InPop? && sys.stack.th[t].pc.PopNext? && sys.stack.th[t].copy == sys0.stack.top
    ensures sys.stack == sys0.stack.(unique := sys0.stack.unique + 1, th := sys.stack.th)
  {
    run, sys := BeginPop(m, n, run0, sys0, t);
    var _, s2, _ := PopHead(m, sys.stack, t);
    run, sys := OnStackOnly(m, n, sys0, run, sys, t);
    run, sys := OnStackOnly(m, n, sys0, run, sys, t);
    assert sys.stack == s2;
  }

  lemma ReadNext(m: nat, n: nat, run0: Moves, sys0: System, t: nat) returns (run: Moves, sys: System)
    requires Reached(m, n, run0, sys0) && t < n && sys0.job[t].InPop? && sys0.stack.th[t].pc.PopNext?
    ensures Reached(m, n, run, sys) && Others(sys0, sys, t) && sys.pool == sys0.pool && sys.made == sys0.made
    ensures sys.job == sys0.job && sys.stack == sys0.stack.(th := sys.stack.th)
    ensures sys.stack.th[t]
            == sys0.stack.th[t].(pc := PopCas, next := NextOf(sys0.stack.heap, sys0.stack.th[t].copy.addr))
  {
    run, sys := OnStackOnly(m, n, sys0, run0, sys0, t);
  }

  /** A pop that finds the word it copied, up to the last step inside the machine. */
  lemma PopTail(m: nat, s: State, t: nat) returns (s1: State, s2: State, s3: State)
    requires m > 0 && t < |s.th| && s.th[t].pc.PopCas? && s.th[t].copy == s.top
    ensures s1 == Step(m, s, t, Continue) && |s1.th| == |s.th| && s1.th[t].pc.PopCount?
    ensures s2 == Step(m, s1, t, Continue) && |s2.th| == |s.th| && s2.th[t].pc.PopData?
    ensures s3 == Step(m, s2, t, Continue) && |s3.th| == |s.th|
    ensures s3.th[t].pc.PopFree? && s3.th[t].node == s.top.addr
    ensures s3 == s.(top := Word(s.th[t].num, s.th[t].next), spec := if s.spec == [] then [] else s.spec[1..],
                     count := s.count - 1, th := s3.th)
  {
    s1 := Step(m, s, t, Continue);
    assert s1 == s.(top := Word(s.th[t].num, s.th[t].next), spec := if s.spec == [] then [] else s.spec[1..],
                    th := s1.th);
    s2 := Step(m, s1, t, Continue);
    assert s2 == s1.(count := s.count - 1, th := s2.th) && s2.th[t].node == s.top.addr;
    s3 := Step(m, s2, t, Continue);
  }

  /** The rest of a pop, with nobody else moving: the node is in hand. */
  lemma FinishPop(m: nat, n: nat, run0: Moves, sys0: System, t: nat) returns (run: Moves, sys: System)
    requires Reached(m, n, run0, sys0) && t < n && sys0.job[t].InPop? && sys0.stack.th[t].pc.PopCas?
    requires sys0.stack.th[t].copy == sys0.stack.top
    ensures Reached(m, n, run, sys) && Others(sys0, sys, t) && sys.pool == sys0.pool && sys.made == sys0.made
    ensures sys.job[t] == HasPopped(sys0.stack.top.addr) && sys.stack.th[t].pc.Idle?
    ensures sys.stack.unique == sys0.stack.unique && sys.stack.heap == sys0.stack.heap
    ensures sys.stack.top == Word(sys0.stack.th[t].num, sys0.stack.th[t].next)
    ensures sys.stack.spec == if sys0.stack.spec == [] then [] else sys0.stack.spec[1..]
    ensures sys.stack.live == sys0.stack.live - {sys0.stack.top.addr}
  {
    var _, _, s3 := PopTail(m, sys0.stack, t);
    run, sys := OnStackOnly(m, n, sys0, run0, sys0, t);
    run, sys := OnStackOnly(m, n, sys0, run, sys, t);
    run, sys := OnStackOnly(m, n, sys0, run, sys, t);
    assert sys.stack == s3;
    run, sys := LeavePop(m, n, sys0, run, sys, t);
  }

  lemma LeavePop(m: nat, n: nat, sys0: System, run0: Moves, sys1: System, t: nat) returns (run: Moves, sys: System)
    requires Reached(m, n, run0, sys1) && t < n && Others(sys0, sys1, t)
    requires sys1.job[t].InPop? && sys1.stack.th[t].pc.PopFree?
    ensures Reached(m, n, run, sys) && Others(sys0, sys, t) && sys.pool == sys1.pool && sys.made == sys1.made
    ensures sys.job[t] == HasPopped(sys1.stack.th[t].node) && sys.stack.th[t].pc.Idle?
    ensures sys.stack == sys1.stack.(live := sys1.stack.live - {sys1.stack.th[t].node}, th := sys.stack.th)
  {
    run, sys := Do(m, n, sys0, run0, sys1, t, Go(0));
  }

  /** A pop of the empty stack only draws a number. */
  lemma {:induction false} EmptyPops(m: nat, n: nat, run0: Moves, sys0: System, t: nat, k: nat)
    returns (run: Moves, sys: System)
    requires Reached(m, n, run0, sys0) && t < n && Resting(sys0, t) && sys0.stack.top.addr == 0
    ensures Reached(m, n, run, sys) && Others(sys0, sys, t) && sys.pool == sys0.pool && sys.made == sys0.made
    ensures Resting(sys, t)
    ensures sys.stack == sys0.stack.(unique := sys0.stack.unique + k, th := sys.stack.th)
  {
    run, sys := run0, sys0;
    if k > 0 {
      run, sys := EmptyPops(m, n, run0, sys0, t, k - 1);
      run, sys := EmptyPop(m, n, sys0, run, sys, t);
    }
  }

  lemma EmptyPop(m: nat, n: nat, sys0: System, run0: Moves, sys1: System, t: nat) returns (run: Moves, sys: System)
    requires Reached(m, n, run0, sys1) && t < n && Others(sys0, sys1, t) && Resting(sys1, t) && sys1.stack.top.addr == 0
    ensures Reached(m, n, run, sys) && Others(sys0, sys, t) && sys.pool == sys1.pool && sys.made == sys1.made
    ensures Resting(sys, t)
    ensures sys.stack == sys1.stack.(unique := sys1.stack.unique + 1, th := sys.stack.th)
  {
    run, sys := BeginPop(m, n, run0, sys1, t);
    run, sys := OnStackOnly(m, n, sys1, run, sys, t);
    assert sys.stack == sys1.stack.(unique := sys1.stack.unique + 1, th := sys.stack.th) && sys.stack.th[t].pc.PopRead?;
    run, sys := FindEmpty(m, n, sys1, run, sys, t);
  }

  lemma FindEmpty(m: nat, n: nat, sys0: System, run0: Moves, sys1: System, t: nat) returns (run: Moves, sys: System)
    requires Reached(m, n, run0, sys1) && t < n && Others(sys0, sys1, t)
    requires sys1.job[t].InPop? && FindsEmpty(sys1.stack, t)
    ensures Reached(m, n, run, sys) && Others(sys0, sys, t) && sys.pool == sys1.pool && sys.made == sys1.made
    ensures sys.job[t].Rest? && sys.stack.th[t].pc.Idle?
    ensures sys.stack == sys1.stack.(th := sys.stack.th)
  {
    run, sys := Do(m, n, sys0, run0, sys1, t, Go(0));
  }

  /** A Free, with nobody else moving. */
  lemma FreeNode(m: nat, n: nat, run0: Moves, sys0: System, t: nat) returns (run: Moves, sys: System)
    requires Reached(m, n, run0, sys0) && t < n && sys0.job[t].HasPopped? && sys0.stack.th[t].pc.Idle?
    requires sys0.job[t].addr != 0 && sys0.job[t].addr !in sys0.pool.live && sys0.pool.th[t].pc.Idle?
    ensures Reached(m, n, run, sys) && Others(sys0, sys, t) && sys.stack == sys0.stack && sys.made == sys0.made
    ensures Resting(sys, t)
    ensures sys.pool.unique == sys0.pool.unique + 1 && sys.pool.top == Word(sys.pool.unique, sys0.job[t].addr)
    ensures NextOf(sys.pool.heap, sys0.job[t].addr) == sys0.pool.top.addr
  {
    run, sys := FreeToLink(m, n, run0, sys0, t);
    run, sys := FinishFree(m, n, run, sys, t);
  }

  lemma FreeToLink(m: nat, n: nat, run0: Moves, sys0: System, t: nat) returns (run: Moves, sys: System)
    requires Reached(m, n, run0, sys0) && t < n && sys0.job[t].HasPopped? && sys0.pool.th[t].pc.Idle?
    requires sys0.job[t].addr != 0 && sys0.job[t].addr !in sys0.pool.live
    ensures Reached(m, n, run, sys) && Others(sys0, sys, t) && sys.stack == sys0.stack && sys.made == sys0.made
    ensures sys.job[t].InFree? && sys.pool.th[t].pc.PushLink? && sys.pool.th[t].node == sys0.job[t].addr
    ensures sys.pool.th[t].copy == sys0.pool.top == sys.pool.top
    ensures sys.pool.th[t].num == sys.pool.unique == sys0.pool.unique + 1
  {
    run, sys := Do(m, n, sys0, run0, sys0, t, Go(0));
    assert sys.job[t].InFree? && sys.pool.th[t].pc.PushDraw? && sys.pool.th[t].node == sys0.job[t].addr;
    run, sys := OnPoolOnly(m, n, sys0, run, sys, t);
    assert sys.job[t].InFree? && sys.pool.th[t].pc.PushRead? && sys.pool.th[t].node == sys0.job[t].addr;
    run, sys := OnPoolOnly(m, n, sys0, run, sys, t);
  }

  lemma FinishFree(m: nat, n: nat, run0: Moves, sys0: System, t: nat) returns (run: Moves, sys: System)
    requires Reached(m, n, run0, sys0) && t < n && sys0.job[t].InFree? && sys0.pool.th[t].pc.PushLink?
    requires sys0.pool.th[t].copy == sys0.pool.top
    ensures Reached(m, n, run, sys) && Others(sys0, sys, t) && sys.stack == sys0.stack && sys.made == sys0.made
    ensures sys.job[t].Rest? && sys.pool.th[t].pc.Idle?
    ensures sys.pool.unique == sys0.pool.unique && sys.pool.top == Word(sys0.pool.th[t].num, sys0.pool.th[t].node)
    ensures NextOf(sys.pool.heap, sys0.pool.th[t].node) == sys0.pool.top.addr
  {
    run, sys := OnPoolOnly(m, n, sys0, run0, sys0, t);
    assert sys.pool.th[t].pc.PushCas? && NextOf(sys.pool.heap, sys0.pool.th[t].node) == sys0.pool.top.addr;
    run, sys := OnPoolOnly(m, n, sys0, run, sys, t);
    assert sys.pool.th[t].pc.PushCount?;
    run, sys := Do(m, n, sys0, run, sys, t, Go(0));
  }

  /** An Alloc that takes the node freed last, with nobody else moving. */
  lemma AllocFreed(m: nat, n: nat, run0: Moves, sys0: System, t: nat, data: int) returns (run: Moves, sys: System)
    requires Reached(m, n, run0, sys0) && t < n && Resting(sys0, t) && sys0.pool.top.addr != 0
    ensures Reached(m, n, run, sys) && Others(sys0, sys, t) && sys.stack == sys0.stack && sys.made == sys0.made
    ensures sys.job[t] == HasNode(sys0.pool.top.addr, data) && sys.pool.th[t].pc.Idle?
    ensures sys.pool.unique == sys0.pool.unique + 1
    ensures sys.pool.top.addr == NextOf(sys0.pool.heap, sys0.pool.top.addr)
  {
    run, sys := AllocToCas(m, n, run0, sys0, t, data);
    run, sys := FinishAlloc(m, n, run, sys, t);
  }

  lemma AllocToCas(m: nat, n: nat, run0: Moves, sys0: System, t: nat, data: int) returns (run: Moves, sys: System)
    requires Reached(m, n, run0, sys0) && t < n && Resting(sys0, t) && sys0.pool.top.addr != 0
    ensures Reached(m, n, run, sys) && Others(sys0, sys, t) && sys.stack == sys0.stack && sys.made == sys0.made
    ensures sys.job[t] == InAlloc(data) && sys.pool.th[t].pc.PopCas? && sys.pool.th[t].copy == sys0.pool.top
    ensures sys.pool.th[t].next == NextOf(sys0.pool.heap, sys0.pool.top.addr)
    ensures sys.pool == sys0.pool.(unique := sys0.pool.unique + 1, th := sys.pool.th)
  {
    run, sys := BeginAlloc(m, n, run0, sys0, t, data);
    var _, _, s3 := PopHead(m, sys.pool, t);
    run, sys := OnPoolOnly(m, n, sys0, run, sys, t);
    run, sys := OnPoolOnly(m, n, sys0, run, sys, t);
    run, sys := OnPoolOnly(m, n, sys0, run, sys, t);
    assert sys.pool == s3;
  }

  lemma FinishAlloc(m: nat, n: nat, run0: Moves, sys0: System, t: nat) returns (run: Moves, sys: System)
    requires Reached(m, n, run0, sys0) && t < n && sys0.job[t].InAlloc? && sys0.pool.th[t].pc.PopCas?
    requires sys0.pool.th[t].copy == sys0.pool.top
    ensures Reached(m, n, run, sys) && Others(sys0, sys, t) && sys.stack == sys0.stack && sys.made == sys0.made
    ensures sys.job[t] == HasNode(sys0.pool.top.addr, sys0.job[t].data) && sys.pool.th[t].pc.Idle?
    ensures sys.pool.unique == sys0.pool.unique && sys.pool.top.addr == sys0.pool.th[t].next
  {
    var _, _, s3 := PopTail(m, sys0.pool, t);
    run, sys := OnPoolOnly(m, n, sys0, run0, sys0, t);
    run, sys := OnPoolOnly(m, n, sys0, run, sys, t);
    run, sys := OnPoolOnly(m, n, sys0, run, sys, t);
    assert sys.pool == s3;
    run, sys := LeaveAlloc(m, n, sys0, run, sys, t);
  }

  lemma LeaveAlloc(m: nat, n: nat, sys0: System, run0: Moves, sys1: System, t: nat) returns (run: Moves, sys: System)
    requires Reached(m, n, run0, sys1) && t < n && Others(sys0, sys1, t)
    requires sys1.job[t].InAlloc? && sys1.pool.th[t].pc.PopFree?
    ensures Reached(m, n, run, sys) && Others(sys0, sys, t) && sys.stack == sys1.stack && sys.made == sys1.made
    ensures sys.job[t] == HasNode(sys1.pool.th[t].node, sys1.job[t].data) && sys.pool.th[t].pc.Idle?
    ensures sys.pool.unique == sys1.pool.unique && sys.pool.top == sys1.pool.top
  {
    run, sys := Do(m, n, sys0, run0, sys1, t, Go(0));
  }

  // ---------------------------------------------------------------------
  // The failing run, with threads 0 and 1
  // ---------------------------------------------------------------------

  /** While few numbers are drawn a node in hand is in neither machine. */
  lemma InHandOnly(m: nat, n: nat, run: Moves, sys: System, t: nat)
    requires Reached(m, n, run, sys) && t < n && InHand(sys.job[t])
    requires sys.stack.unique <= m && sys.pool.unique <= m
    ensures sys.job[t].addr != 0 && sys.job[t].addr !in sys.stack.live && sys.job[t].addr !in sys.pool.live
  {
    StackWithPoolInLimit(m, n, run);
  }

  /** Thread 0 has drawn number 1 for node 1, and stops; thread 1 draws numbers in pops that find nothing. */
  lemma DrawEarly(m: nat, n: nat) returns (run: Moves, sys: System)
    requires m >= 4 && n >= 2
    ensures Reached(m, n, run, sys) && Resting(sys, 1)
    ensures sys.job[0].InPush? && sys.pool.th[0].pc.Idle? && sys.stack.th[0].pc.PushRead?
    ensures sys.stack.th[0].node == 1 && sys.stack.th[0].num == 1
    ensures sys.stack.unique == m - 3 && sys.stack.top.addr == 0 && sys.stack.spec == []
    ensures sys.pool.unique == 1 && sys.pool.top.addr == 0 && sys.made == {1}
  {
    run, sys := [], Begin(n);
    run, sys := AllocNew(m, n, run, sys, 0, 10, 1);
    run, sys := PushToDraw(m, n, run, sys, 0);
    run, sys := DrawNumber(m, n, run, sys, 0);
    run, sys := EmptyPops(m, n, run, sys, 1, m - 4);
  }

  /** Thread 1 pushes node 2, then thread 0 node 1, late. */
  lemma PushLate(m: nat, n: nat) returns (run: Moves, sys: System)
    requires m >= 4 && n >= 2
    ensures Reached(m, n, run, sys) && Resting(sys, 0) && Resting(sys, 1)
    ensures sys.stack.unique == m - 2 && sys.stack.top == Word(1, 1) && |sys.stack.spec| == 2
    ensures sys.pool.unique == 2 && sys.pool.top.addr == 0
  {
    run, sys := DrawEarly(m, n);
    run, sys := AllocNew(m, n, run, sys, 1, 20, 2);
    InHandOnly(m, n, run, sys, 1);
    run, sys := PushNode(m, n, run, sys, 1);
    run, sys := EndPush(m, n, run, sys, 0);
  }

  predicate Asleep(sys: System) {
    && |sys.stack.th| == |sys.job| > 0
    && sys.job[0].InPop? && sys.stack.th[0].pc.PopNext? && sys.stack.th[0].copy == Word(1, 1)
  }

  /** Thread 0 copies the word and stops; thread 1 pops node 1, frees it, and gets it back for its next push. */
  lemma TakeBack(m: nat, n: nat) returns (run: Moves, sys: System)
    requires m >= 4 && n >= 2
    ensures Reached(m, n, run, sys) && Asleep(sys)
    ensures sys.job[1].HasNode? && sys.job[1].addr == 1 && sys.stack.th[1].pc.Idle? && sys.pool.th[1].pc.Idle?
    ensures sys.stack.unique == m && |sys.stack.spec| == 1 && sys.pool.unique == 4
  {
    run, sys := PushLate(m, n);
    run, sys := PopToNext(m, n, run, sys, 0);
    run, sys := PopToNext(m, n, run, sys, 1);
    run, sys := ReadNext(m, n, run, sys, 1);
    run, sys := FinishPop(m, n, run, sys, 1);
    InHandOnly(m, n, run, sys, 1);
    run, sys := FreeNode(m, n, run, sys, 1);
    run, sys := AllocFreed(m, n, run, sys, 1, 30);
  }

  /** Thread 0 reads the successor of node 1 while it is cleared; thread 1 pushes node 1 under the tag of the word
      that thread 0 copied. */
  lemma ComeRoundWithPool(m: nat, n: nat) returns (run: Moves, sys: System)
    requires m >= 4 && n >= 2
    ensures Reached(m, n, run, sys) && sys.job[0].InPop?
    ensures sys.stack.th[0].pc.PopCas? && sys.stack.th[0].copy == Word(1, 1) && sys.stack.th[0].next == 0
    ensures sys.stack.unique == m + 1 && sys.stack.top == Word(m + 1, 1) && |sys.stack.spec| == 2
    ensures sys.pool.unique == 4
  {
    run, sys := TakeBack(m, n);
    InHandOnly(m, n, run, sys, 1);
    run, sys := PushToDraw(m, n, run, sys, 1);
    run, sys := ReadNext(m, n, run, sys, 0);
    run, sys := DrawNumber(m, n, run, sys, 1);
    run, sys := EndPush(m, n, run, sys, 1);
  }

  /** The sleeper then empties the linked list, and the value of node 2 is lost. */
  lemma LosesValueWithPool(m: nat, n: nat) returns (run: Moves, sys: System)
    requires m >= 4 && n >= 2
    ensures Reached(m, n, run, sys) && sys.stack.unique == m + 1 && sys.pool.unique == 4
    ensures sys.stack.top.addr == 0 && |sys.stack.spec| == 1
  {
    run, sys := ComeRoundWithPool(m, n);
    ModUnique(m + 1, m, 1, 1);
    assert SameWord(m, sys.stack.top, sys.stack.th[0].copy);
    run, sys := OnStackOnly(m, n, sys, run, sys, 0);
  }

  /** A run that draws at most `k` numbers from either counter. */
  predicate Frugal(m: nat, n: nat, run: Moves, k: nat)
    requires m > 0
  {
    ValidMoves(n, run) && SystemRun(m, n, run).stack.unique <= k && SystemRun(m, n, run).pool.unique <= k
  }

  /** The exact limit for stack and pool together: all runs that draw at most `k` numbers from each
      counter are right, if and only if `k` is at most `m` or there is no second thread. */
  lemma SafeWithPoolExactly(m: nat, n: nat, k: nat)
    requires m >= 4
    ensures (forall run | Frugal(m, n, run, k) :: AllRight(SystemRun(m, n, run))) <==> n <= 1 || k <= m
  {
    if n <= 1 || k <= m {
      forall run | Frugal(m, n, run, k) ensures AllRight(SystemRun(m, n, run)) {
        StackWithPoolInLimit(m, n, run);
      }
    } else {
      var run, sys := LosesValueWithPool(m, n);
      assert Frugal(m, n, run, k) && !Right(sys.stack);
    }
  }

  /** So `m` is the limit that a user who does not know the number of threads can rely on. */
  lemma SafeForAnyThreads(m: nat, k: nat)
    requires m >= 4
    ensures (forall n: nat, run | Frugal(m, n, run, k) :: AllRight(SystemRun(m, n, run))) <==> k <= m
  {
    if k <= m {
      forall n: nat, run | Frugal(m, n, run, k) ensures AllRight(SystemRun(m, n, run)) {
        StackWithPoolInLimit(m, n, run);
      }
    } else {
      var run, sys := LosesValueWithPool(m, 2);
      assert Frugal(m, 2, run, k) && !Right(sys.stack);
    }
  }
}

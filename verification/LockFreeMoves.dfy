/**
 Runs of the stack built move by move: calls, or parts of calls, during which
 only one thread moves. They serve the runs that show where the limits are.
 */
module LockFreeMoves {
  import opened LockFreeStack
  import opened LockFreeMonitor

  /** `run` leads to `s`; with `test` it is a run of the test program. */
  ghost predicate Reached(m: nat, n: nat, test: bool, run: Schedule, s: State) {
    m > 0 && ValidRun(n, run) && s == Run(m, n, run) && (test ==> TestRun(m, n, run))
  }

  /** Thread `t` has moved and no other. */
  predicate Only(s0: State, s: State, t: nat) { t < |s.th| == |s0.th| && s.th == s0.th[t := s.th[t]] }

  /** The thread's last call was a push, in the test program. */
  predicate Odd(me: Thread) { me.calls % 2 == 1 }

  /** Only `t` has moved, and has begun one call, or none. */
  predicate Begun(s0: State, s: State, t: nat) { Only(s0, s, t) && Odd(s.th[t]) == !Odd(s0.th[t]) }

  predicate WentOn(s0: State, s: State, t: nat) { Only(s0, s, t) && Odd(s.th[t]) == Odd(s0.th[t]) }

  /** Whether the thread may begin a push, or a pop, when the program is the test program. */
  predicate MayPush(test: bool, me: Thread) { me.pc.Idle? && (test ==> !Odd(me)) }

  predicate MayPop(test: bool, me: Thread) { me.pc.Idle? && (test ==> Odd(me)) }

  lemma Take(m: nat, n: nat, test: bool, run: Schedule, s: State, t: nat, a: Action)
    returns (run': Schedule, s': State)
    requires Reached(m, n, test, run, s) && t < n && (test ==> InTurn(s.th[t], a))
    ensures Reached(m, n, test, run', s') && s' == Step(m, s, t, a)
    ensures |s'.th| == n && s'.th == s.th[t := s'.th[t]]
  {
    run', s' := run + [(t, a)], Step(m, s, t, a);
    assert run'[..|run'| - 1] == run;
    StepTouchesOne(m, s, t, a);
  }

  /** A push up to the point where it draws its number. */
  lemma StartPush(m: nat, n: nat, test: bool, run0: Schedule, s0: State, t: nat, addr: nat, data: int)
    returns (run: Schedule, s: State)
    requires Reached(m, n, test, run0, s0) && t < n && MayPush(test, s0.th[t]) && addr != 0 && addr !in s0.live
    ensures Reached(m, n, test, run, s) && Begun(s0, s, t)
    ensures s.th[t].pc.PushDraw? && s.th[t].node == addr && s.th[t].val == data
    ensures s == s0.(heap := s0.heap[addr := Node(0, data)], live := s0.live + {addr}, th := s.th)
  {
    run, s := Take(m, n, test, run0, s0, t, CallPush(addr, data));
    run, s := Take(m, n, test, run, s, t, Continue);
  }

  lemma DrawNumber(m: nat, n: nat, test: bool, run0: Schedule, s0: State, t: nat) returns (run: Schedule, s: State)
    requires Reached(m, n, test, run0, s0) && t < n && s0.th[t].pc.PushDraw?
    ensures Reached(m, n, test, run, s) && WentOn(s0, s, t)
    ensures s.th[t] == s0.th[t].(pc := PushRead, num := s0.unique + 1)
    ensures s == s0.(unique := s0.unique + 1, th := s.th)
  {
    run, s := Take(m, n, test, run0, s0, t, Continue);
  }

  /** A push that has drawn its number, up to its compare-and-swap. */
  lemma LinkPush(m: nat, n: nat, test: bool, run0: Schedule, s0: State, t: nat) returns (run: Schedule, s: State)
    requires Reached(m, n, test, run0, s0) && t < n && s0.th[t].pc.PushRead?
    ensures Reached(m, n, test, run, s) && WentOn(s0, s, t)
    ensures s.th[t] == s0.th[t].(pc := PushCas, copy := s0.top)
    ensures s == s0.(heap := s0.heap[s0.th[t].node := Node(s0.top.addr, DataOf(s0.heap, s0.th[t].node))], th := s.th)
  {
    run, s := Take(m, n, test, run0, s0, t, Continue);
    run, s := Take(m, n, test, run, s, t, Continue);
  }

  /** The rest of a push that has drawn its number. */
  lemma EndPush(m: nat, n: nat, test: bool, run0: Schedule, s0: State, t: nat) returns (run: Schedule, s: State)
    requires Reached(m, n, test, run0, s0) && t < n && s0.th[t].pc.PushRead?
    ensures Reached(m, n, test, run, s) && WentOn(s0, s, t) && s.th[t].pc.Idle?
    ensures var me := s0.th[t];
            s == s0.(top := Word(me.num, me.node), count := s0.count + 1, spec := [Item(me.node, me.val)] + s0.spec,
                     heap := s0.heap[me.node := Node(s0.top.addr, DataOf(s0.heap, me.node))], th := s.th)
  {
    run, s := LinkPush(m, n, test, run0, s0, t);
    run, s := Take(m, n, test, run, s, t, Continue);
    run, s := Take(m, n, test, run, s, t, Continue);
  }

  /** A whole push. */
  lemma PushAlone(m: nat, n: nat, test: bool, run0: Schedule, s0: State, t: nat, addr: nat, data: int)
    returns (run: Schedule, s: State)
    requires Reached(m, n, test, run0, s0) && t < n && MayPush(test, s0.th[t]) && addr != 0 && addr !in s0.live
    ensures Reached(m, n, test, run, s) && Begun(s0, s, t) && s.th[t].pc.Idle?
    ensures s == s0.(unique := s0.unique + 1, top := Word(s0.unique + 1, addr), count := s0.count + 1,
                     heap := s0.heap[addr := Node(s0.top.addr, data)], live := s0.live + {addr},
                     spec := [Item(addr, data)] + s0.spec, th := s.th)
  {
    run, s := StartPush(m, n, test, run0, s0, t, addr, data);
    run, s := DrawNumber(m, n, test, run, s, t);
    run, s := EndPush(m, n, test, run, s, t);
    assert s.heap == s0.heap[addr := Node(s0.top.addr, data)];
  }

  /** A pop that has drawn its number. */
  lemma BeginPop(m: nat, n: nat, test: bool, run0: Schedule, s0: State, t: nat) returns (run: Schedule, s: State)
    requires Reached(m, n, test, run0, s0) && t < n && MayPop(test, s0.th[t])
    ensures Reached(m, n, test, run, s) && Begun(s0, s, t)
    ensures s.th[t].pc.PopRead? && s.th[t].num == s.unique
    ensures s == s0.(unique := s0.unique + 1, th := s.th)
  {
    run, s := Take(m, n, test, run0, s0, t, CallPop);
    assert s.th[t] == s0.th[t].(pc := PopDraw, calls := s0.th[t].calls + 1);
    run, s := Take(m, n, test, run, s, t, Continue);
  }

  /** A pop that has copied the word. */
  lemma StartPop(m: nat, n: nat, test: bool, run0: Schedule, s0: State, t: nat) returns (run: Schedule, s: State)
    requires Reached(m, n, test, run0, s0) && t < n && MayPop(test, s0.th[t]) && s0.top.addr != 0
    ensures Reached(m, n, test, run, s) && Begun(s0, s, t)
    ensures s.th[t].pc.PopNext? && s.th[t].copy == s0.top && s.th[t].num == s.unique
    ensures s == s0.(unique := s0.unique + 1, th := s.th)
  {
    run, s := BeginPop(m, n, test, run0, s0, t);
    run, s := Take(m, n, test, run, s, t, Continue);
  }

  lemma ReadNext(m: nat, n: nat, test: bool, run0: Schedule, s0: State, t: nat) returns (run: Schedule, s: State)
    requires Reached(m, n, test, run0, s0) && t < n && s0.th[t].pc.PopNext?
    ensures Reached(m, n, test, run, s) && WentOn(s0, s, t)
    ensures s.th[t] == s0.th[t].(pc := PopCas, next := NextOf(s0.heap, s0.th[t].copy.addr))
    ensures s == s0.(th := s.th)
  {
    run, s := Take(m, n, test, run0, s0, t, Continue);
  }

  /** The rest of a pop whose compare-and-swap will succeed, whatever successor it has read. */
  lemma EndPop(m: nat, n: nat, test: bool, run0: Schedule, s0: State, t: nat) returns (run: Schedule, s: State)
    requires Reached(m, n, test, run0, s0) && t < n && s0.th[t].pc.PopCas?
    requires SameWord(m, s0.top, s0.th[t].copy)
    ensures Reached(m, n, test, run, s) && WentOn(s0, s, t) && s.th[t].pc.Idle?
    ensures var me := s0.th[t];
            s == s0.(top := Word(me.num, me.next), count := s0.count - 1, live := s0.live - {me.copy.addr},
                     spec := if s0.spec == [] then [] else s0.spec[1..], th := s.th)
  {
    run, s := Take(m, n, test, run0, s0, t, Continue);
    run, s := FreePopped(m, n, test, run, s, t);
  }

  lemma FreePopped(m: nat, n: nat, test: bool, run0: Schedule, s0: State, t: nat) returns (run: Schedule, s: State)
    requires Reached(m, n, test, run0, s0) && t < n && s0.th[t].pc.PopCount?
    ensures Reached(m, n, test, run, s) && WentOn(s0, s, t) && s.th[t].pc.Idle?
    ensures s == s0.(count := s0.count - 1, live := s0.live - {s0.th[t].node}, th := s.th)
  {
    run, s := Take(m, n, test, run0, s0, t, Continue);
    assert s == s0.(count := s0.count - 1, th := s.th) && s.th[t] == s0.th[t].(pc := PopData);
    run, s := Take(m, n, test, run, s, t, Continue);
    assert s == s0.(count := s0.count - 1, th := s.th) && s.th[t].node == s0.th[t].node;
    run, s := Take(m, n, test, run, s, t, Continue);
  }

  /** A whole pop. */
  lemma PopAlone(m: nat, n: nat, test: bool, run0: Schedule, s0: State, t: nat) returns (run: Schedule, s: State)
    requires Reached(m, n, test, run0, s0) && t < n && MayPop(test, s0.th[t]) && s0.top.addr != 0
    ensures Reached(m, n, test, run, s) && Begun(s0, s, t) && s.th[t].pc.Idle?
    ensures s == s0.(unique := s0.unique + 1, top := Word(s0.unique + 1, NextOf(s0.heap, s0.top.addr)),
                     count := s0.count - 1, live := s0.live - {s0.top.addr},
                     spec := if s0.spec == [] then [] else s0.spec[1..], th := s.th)
  {
    run, s := StartPop(m, n, test, run0, s0, t);
    run, s := ReadNext(m, n, test, run, s, t);
    run, s := EndPop(m, n, test, run, s, t);
  }

  /** A pop that finds the word null only draws a number. */
  lemma PopNothing(m: nat, n: nat, test: bool, run0: Schedule, s0: State, t: nat) returns (run: Schedule, s: State)
    requires Reached(m, n, test, run0, s0) && t < n && MayPop(test, s0.th[t]) && s0.top.addr == 0
    ensures Reached(m, n, test, run, s) && Begun(s0, s, t) && s.th[t].pc.Idle?
    ensures s == s0.(unique := s0.unique + 1, th := s.th)
  {
    run, s := BeginPop(m, n, test, run0, s0, t);
    run, s := Take(m, n, test, run, s, t, Continue);
  }
}

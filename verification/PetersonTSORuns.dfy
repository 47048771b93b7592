/**
 TSO runs that break the source's lock, and the exact answer they give together
 with the guarantees of clean runs: with a fence in front of the turn store, or
 none, exclusion and the final count fail for every N >= 1.
 */
module PetersonTSORuns {
  import opened PetersonProgram
  import opened PetersonTSO

  lemma Take(p: Fencing, n: nat, run: seq<Action>, s: State, a: Action) returns (run': seq<Action>, s': State)
    requires s == Run(p, n, Init(), run)
    ensures run' == run + [a] && s' == Step(p, n, s, a) == Run(p, n, Init(), run')
  {
    run', s' := run + [a], Step(p, n, s, a);
    RunExtend(p, n, Init(), run, a);
  }

  /** Thread `t` passes its fence, if it has one in front of the turn store. */
  lemma PassFence(p: Fencing, n: nat, run: seq<Action>, s: State, t: Tid) returns (run': seq<Action>, s': State)
    requires s == Run(p, n, Init(), run) && !p.FenceAfterTurn?
    requires s.Th(t).pc == AfterRaise(p) && s.Th(t).buf == []
    ensures s' == s.SetTh(t, s.Th(t).(pc := GiveTurn)) == Run(p, n, Init(), run')
  {
    if p.FenceBeforeTurn? {
      run', s' := Take(p, n, run, s, Exec(t));
    } else {
      run', s' := run, s;
    }
  }

  /** Thread `t` raises its flag visibly and issues, but does not drain, its turn store. */
  lemma Announce(p: Fencing, n: nat, run0: seq<Action>, s0: State, t: Tid) returns (run: seq<Action>, s: State)
    requires s0 == Run(p, n, Init(), run0) && !p.FenceAfterTurn?
    requires s0.Th(t).pc.Head? && s0.Th(t).i < n && s0.Th(t).buf == []
    ensures s == Run(p, n, Init(), run)
    ensures s == s0.SetFlag(t, true).SetTh(t, s0.Th(t).(pc := TestFlag, buf := [WTurn(Other(t))]))
  {
    run, s := Take(p, n, run0, s0, Exec(t));
    run, s := Take(p, n, run, s, Exec(t));
    run, s := Take(p, n, run, s, Drain(t));
    assert s == s0.SetFlag(t, true).SetTh(t, s0.Th(t).(pc := AfterRaise(p)));
    run, s := PassFence(p, n, run, s, t);
    run, s := Take(p, n, run, s, Exec(t));
  }

  /** Thread `t`, at the end of its wait loop, increments and leaves, draining as it goes. */
  lemma Leave(p: Fencing, n: nat, run0: seq<Action>, s0: State, t: Tid) returns (run: seq<Action>, s: State)
    requires s0 == Run(p, n, Init(), run0)
    requires s0.Th(t).pc.StoreCnt? && s0.Th(t).buf == []
    ensures s == Run(p, n, Init(), run)
    ensures s == s0.SetFlag(t, false).(cnt := s0.Th(t).tmp + 1)
                   .SetTh(t, s0.Th(t).(pc := Head, i := s0.Th(t).i + 1))
  {
    var me := s0.Th(t);
    run, s := Take(p, n, run0, s0, Exec(t));
    assert s == s0.SetTh(t, me.(pc := LowerFlag, buf := [WCnt(me.tmp + 1)]));
    run, s := Take(p, n, run, s, Drain(t));
    assert s == s0.(cnt := me.tmp + 1).SetTh(t, me.(pc := LowerFlag));
    run, s := Take(p, n, run, s, Exec(t));
    run, s := Take(p, n, run, s, Drain(t));
  }

  /** The first thread gets in before its turn store is visible, so the late store lets the second one in too. */
  lemma BothEnter(p: Fencing, n: nat) returns (run: seq<Action>, s: State)
    requires !p.FenceAfterTurn? && n >= 1
    ensures s == Run(p, n, Init(), run) && BothInCs(s)
    ensures s == State(true, true, 1, 0, Thread(LoadCnt, 0, 0, []), Thread(LoadCnt, 0, 0, []))
  {
    run, s := FirstEntersEarly(p, n);
    run, s := Announce(p, n, run, s, 1);
    run, s := Take(p, n, run, s, Drain(1));
    run, s := Take(p, n, run, s, Exec(1));
    assert s.turn == 0 && s.th1 == Thread(TestTurn, 0, 0, []);
    run, s := Take(p, n, run, s, Drain(0));
    run, s := Take(p, n, run, s, Exec(1));
  }

  /** Thread 0 is in the critical section while its turn store is still buffered. */
  lemma FirstEntersEarly(p: Fencing, n: nat) returns (run: seq<Action>, s: State)
    requires !p.FenceAfterTurn? && n >= 1
    ensures s == Run(p, n, Init(), run)
    ensures s == Init().(flag0 := true, th0 := Thread(LoadCnt, 0, 0, [WTurn(1)]))
  {
    assert Run(p, n, Init(), []) == Init();
    run, s := Announce(p, n, [], Init(), 0);
    run, s := Take(p, n, run, s, Exec(0));
  }

  /** Both threads load 0 and store 1. */
  lemma LoseOne(p: Fencing, n: nat) returns (run: seq<Action>, s: State)
    requires !p.FenceAfterTurn? && n >= 1
    ensures s == Run(p, n, Init(), run)
    ensures s == State(false, false, 1, 1, Thread(Head, 1, 0, []), Thread(Head, 1, 0, []))
  {
    run, s := BothEnter(p, n);
    run, s := Take(p, n, run, s, Exec(0));
    run, s := Take(p, n, run, s, Exec(1));
    run, s := Leave(p, n, run, s, 0);
    run, s := Leave(p, n, run, s, 1);
  }

  lemma IterateAlone(p: Fencing, n: nat, run0: seq<Action>, s0: State, t: Tid) returns (run: seq<Action>, s: State)
    requires s0 == Run(p, n, Init(), run0) && !p.FenceAfterTurn?
    requires s0.Th(t).pc.Head? && s0.Th(t).i < n && s0.Th(t).buf == []
    requires !s0.Flag(t) && !s0.Flag(Other(t))
    ensures s == Run(p, n, Init(), run)
    ensures s == s0.SetFlag(t, false).(turn := Other(t), cnt := s0.cnt + 1)
                   .SetTh(t, Thread(Head, s0.Th(t).i + 1, s0.cnt, []))
  {
    run, s := Announce(p, n, run0, s0, t);
    run, s := Take(p, n, run, s, Drain(t));
    run, s := Take(p, n, run, s, Exec(t));
    assert s == s0.SetFlag(t, true).(turn := Other(t)).SetTh(t, s0.Th(t).(pc := LoadCnt));
    run, s := Take(p, n, run, s, Exec(t));
    run, s := Leave(p, n, run, s, t);
  }

  /** With the other flag down, `t` finishes all its iterations undisturbed. */
  lemma {:induction false} FinishAlone(p: Fencing, n: nat, run0: seq<Action>, s0: State, t: Tid)
    returns (run: seq<Action>, s: State)
    requires s0 == Run(p, n, Init(), run0) && !p.FenceAfterTurn?
    requires s0.Th(t).pc.Head? && s0.Th(t).i <= n && s0.Th(t).buf == []
    requires !s0.Flag(t) && !s0.Flag(Other(t))
    ensures s == Run(p, n, Init(), run)
    ensures s.Th(t).pc.End? && s.Th(t).buf == [] && s.cnt == s0.cnt + n - s0.Th(t).i
    ensures !s.Flag(t) && !s.Flag(Other(t)) && s.Th(Other(t)) == s0.Th(Other(t))
    decreases n - s0.Th(t).i
  {
    if s0.Th(t).i == n {
      run, s := Take(p, n, run0, s0, Exec(t));
    } else {
      run, s := IterateAlone(p, n, run0, s0, t);
      run, s := FinishAlone(p, n, run, s, t);
    }
  }

  /** A complete run in which one increment is lost. */
  lemma FinishWithLoss(p: Fencing, n: nat) returns (run: seq<Action>)
    requires !p.FenceAfterTurn? && n >= 1
    ensures Done(Run(p, n, Init(), run)) && Run(p, n, Init(), run).cnt == 2 * n - 1
  {
    var s;
    run, s := LoseOne(p, n);
    run, s := FinishAlone(p, n, run, s, 0);
    run, s := FinishAlone(p, n, run, s, 1);
  }

  /** Exclusion in all TSO runs: exactly with the fence after the turn store, or with nothing to do. */
  lemma ExclusionExactly(p: Fencing, n: nat)
    ensures (forall run :: !BothInCs(Run(p, n, Init(), run))) <==> p.FenceAfterTurn? || n == 0
  {
    if p.FenceAfterTurn? || n == 0 {
      forall run ensures !BothInCs(Run(p, n, Init(), run)) {
        if n == 0 { EmptyRunsAreClean(p, run); } else { LateFenceRunsAreClean(n, run); }
        CleanMutualExclusion(p, n, run);
      }
    } else {
      var run, s := BothEnter(p, n);
      assert BothInCs(Run(p, n, Init(), run));
    }
  }

  /** The printed count is 2N in all complete TSO runs under exactly the same condition. */
  lemma FinalCountExactly(p: Fencing, n: nat)
    ensures (forall run :: Done(Run(p, n, Init(), run)) ==> Run(p, n, Init(), run).cnt == 2 * n)
            <==> p.FenceAfterTurn? || n == 0
  {
    if p.FenceAfterTurn? || n == 0 {
      forall run | Done(Run(p, n, Init(), run)) ensures Run(p, n, Init(), run).cnt == 2 * n {
        if n == 0 { EmptyRunsAreClean(p, run); } else { LateFenceRunsAreClean(n, run); }
        CleanCount(p, n, run);
      }
    } else {
      var run := FinishWithLoss(p, n);
      assert Done(Run(p, n, Init(), run));
    }
  }
}

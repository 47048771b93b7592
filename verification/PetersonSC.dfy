/**
 Peterson's lock under sequentially consistent interleaving: one atomic access
 per step, any schedule, any iteration count `n`.
 */
module PetersonSC {
  import opened PetersonProgram

  datatype Thread = Thread(pc: Pc, i: int, tmp: int)

  datatype State = State(flag0: bool, flag1: bool, turn: int, cnt: int, th0: Thread, th1: Thread) {
    function Th(t: Tid): Thread { if t == 0 then th0 else th1 }

    function Flag(t: Tid): bool { if t == 0 then flag0 else flag1 }

    function SetTh(t: Tid, th: Thread): State { if t == 0 then this.(th0 := th) else this.(th1 := th) }

    function SetFlag(t: Tid, b: bool): State { if t == 0 then this.(flag0 := b) else this.(flag1 := b) }
  }

  function Init(): State {
    State(false, false, 2, 0, Thread(Head, 0, 0), Thread(Head, 0, 0))
  }

  /** What one step does to the stepping thread `t` itself. */
  function StepThread(p: Fencing, n: nat, t: Tid, me: Thread, otherFlag: bool, turn: int, cnt: int): Thread {
    match me.pc
    case Head => me.(pc := if me.i < n then RaiseFlag else End)
    case RaiseFlag => me.(pc := AfterRaise(p))
    case Fence1 => me.(pc := GiveTurn)
    case GiveTurn => me.(pc := AfterGive(p))
    case Fence2 => me.(pc := TestFlag)
    case TestFlag => me.(pc := if otherFlag then TestTurn else LoadCnt)
    case TestTurn => me.(pc := if turn == Other(t) then TestFlag else LoadCnt)
    case LoadCnt => me.(pc := StoreCnt, tmp := cnt)
    case StoreCnt => me.(pc := LowerFlag)
    case LowerFlag => me.(pc := Head, i := me.i + 1)
    case End => me
  }

  /** And what it does to the globals. */
  function StepGlobals(s: State, t: Tid): State {
    match s.Th(t).pc
    case RaiseFlag => s.SetFlag(t, true)
    case GiveTurn => s.(turn := Other(t))
    case StoreCnt => s.(cnt := s.Th(t).tmp + 1)
    case LowerFlag => s.SetFlag(t, false)
    case _ => s
  }

  function Step(p: Fencing, n: nat, s: State, t: Tid): State {
    StepGlobals(s, t).SetTh(t, StepThread(p, n, t, s.Th(t), s.Flag(Other(t)), s.turn, s.cnt))
  }

  /** The state after a schedule, the last step taken last. */
  function Run(p: Fencing, n: nat, s: State, sched: seq<Tid>): State {
    if sched == [] then s
    else Step(p, n, Run(p, n, s, sched[..|sched| - 1]), sched[|sched| - 1])
  }

  predicate Finished(s: State) { s.th0.pc.End? && s.th1.pc.End? }

  // ---------------------------------------------------------------------
  // Safety
  // ---------------------------------------------------------------------

  /** Increments whose store has been issued by `th`. */
  function Issued(th: Thread): int { th.i + if th.pc.LowerFlag? then 1 else 0 }

  predicate HasTurnStore(pc: Pc) { pc.Fence2? || Waiting(pc) || InCs(pc) }

  predicate LocalInv(n: nat, s: State, t: Tid) {
    var me := s.Th(t);
    && 0 <= me.i <= n
    && (me.pc.End? ==> me.i == n)
    && (!me.pc.Head? && !me.pc.End? ==> me.i < n)
    && (s.Flag(t) <==> !(me.pc.Head? || me.pc.RaiseFlag? || me.pc.End?))
    && (HasTurnStore(me.pc) ==> s.turn != 2)
    && (InCs(me.pc) && HasTurnStore(s.Th(Other(t)).pc) ==> s.turn == t)
    && (me.pc.StoreCnt? ==> me.tmp == s.cnt)
  }

  predicate Inv(n: nat, s: State) {
    && 0 <= s.turn <= 2
    && LocalInv(n, s, 0)
    && LocalInv(n, s, 1)
    && s.cnt == Issued(s.th0) + Issued(s.th1)
  }

  lemma StepKeepsOwn(p: Fencing, n: nat, s: State, t: Tid)
    requires Inv(n, s)
    ensures LocalInv(n, Step(p, n, s, t), t)
  {
  }

  lemma StepKeepsOther(p: Fencing, n: nat, s: State, t: Tid)
    requires Inv(n, s)
    ensures LocalInv(n, Step(p, n, s, t), Other(t))
  {
  }

  lemma StepKeepsCount(p: Fencing, n: nat, s: State, t: Tid)
    requires Inv(n, s)
    ensures var s' := Step(p, n, s, t); 0 <= s'.turn <= 2 && s'.cnt == Issued(s'.th0) + Issued(s'.th1)
  {
  }

  lemma StepKeepsInv(p: Fencing, n: nat, s: State, t: Tid)
    requires Inv(n, s)
    ensures Inv(n, Step(p, n, s, t))
  {
    StepKeepsOwn(p, n, s, t);
    StepKeepsOther(p, n, s, t);
    StepKeepsCount(p, n, s, t);
  }

  lemma {:induction false} RunKeepsInv(p: Fencing, n: nat, s: State, sched: seq<Tid>)
    requires Inv(n, s)
    ensures Inv(n, Run(p, n, s, sched))
  {
    if sched != [] {
      RunKeepsInv(p, n, s, sched[..|sched| - 1]);
      StepKeepsInv(p, n, Run(p, n, s, sched[..|sched| - 1]), sched[|sched| - 1]);
    }
  }

  /** In every reachable state at most one thread is past its wait loop. */
  lemma MutualExclusion(p: Fencing, n: nat, sched: seq<Tid>)
    ensures var s := Run(p, n, Init(), sched); !(InCs(s.th0.pc) && InCs(s.th1.pc))
  {
    RunKeepsInv(p, n, Init(), sched);
  }

  /** No increment is lost: the counter is the number of stores issued, and 2N at the end. */
  lemma NoLostIncrement(p: Fencing, n: nat, sched: seq<Tid>)
    ensures var s := Run(p, n, Init(), sched);
            && s.cnt == Issued(s.th0) + Issued(s.th1)
            && 0 <= s.cnt <= 2 * n
            && (Finished(s) ==> s.cnt == 2 * n)
  {
    RunKeepsInv(p, n, Init(), sched);
  }

  // ---------------------------------------------------------------------
  // Bounded bypass
  // ---------------------------------------------------------------------

  /** Thread `t` waits in the state before the schedule and after each of its steps. */
  predicate KeepsWaiting(p: Fencing, n: nat, s: State, sched: seq<Tid>, t: Tid) {
    && Waiting(Run(p, n, s, sched).Th(t).pc)
    && (sched != [] ==> KeepsWaiting(p, n, s, sched[..|sched| - 1], t))
  }

  /** How often thread `o` passes its wait loop during the schedule. */
  function Entries(p: Fencing, n: nat, s: State, sched: seq<Tid>, o: Tid): nat {
    if sched == [] then 0
    else
      var before := Run(p, n, s, sched[..|sched| - 1]);
      var after := Run(p, n, s, sched);
      Entries(p, n, s, sched[..|sched| - 1], o)
      + if Waiting(before.Th(o).pc) && InCs(after.Th(o).pc) then 1 else 0
  }

  /** One if `o` could still get past its wait loop while `t` keeps waiting. */
  function BypassesLeft(s: State, t: Tid): nat {
    var o := s.Th(Other(t)).pc;
    if (Waiting(o) || o.Fence2?) && s.turn != t then 1 else 0
  }

  lemma {:induction false} BypassBudget(p: Fencing, n: nat, s: State, sched: seq<Tid>, t: Tid)
    requires Inv(n, s) && KeepsWaiting(p, n, s, sched, t)
    ensures Entries(p, n, s, sched, Other(t)) + BypassesLeft(Run(p, n, s, sched), t) <= BypassesLeft(s, t) <= 1
  {
    if sched != [] {
      var before := sched[..|sched| - 1];
      BypassBudget(p, n, s, before, t);
      RunKeepsInv(p, n, s, before);
    }
  }

  /** From any reachable state: while `t` keeps waiting, the other thread enters at most once, and not at
      all if the turn is `t`'s already. */
  lemma BoundedBypass(p: Fencing, n: nat, prefix: seq<Tid>, sched: seq<Tid>, t: Tid)
    requires KeepsWaiting(p, n, Run(p, n, Init(), prefix), sched, t)
    ensures var s := Run(p, n, Init(), prefix);
            Entries(p, n, s, sched, Other(t)) <= if s.turn == t then 0 else 1
  {
    RunKeepsInv(p, n, Init(), prefix);
    BypassBudget(p, n, Run(p, n, Init(), prefix), sched, t);
  }

  lemma Extend(p: Fencing, n: nat, s: State, sched: seq<Tid>, t: Tid)
    ensures Run(p, n, s, sched + [t]) == Step(p, n, Run(p, n, s, sched), t)
  {
    assert (sched + [t])[..|sched + [t]| - 1] == sched;
  }

  /** Thread `t`, at its turn store, gives the turn away and starts to wait. */
  lemma GiveAndWait(p: Fencing, n: nat, sched: seq<Tid>, t: Tid) returns (sched': seq<Tid>)
    requires Run(p, n, Init(), sched).Th(t).pc.GiveTurn?
    ensures var s := Run(p, n, Init(), sched);
            Run(p, n, Init(), sched') == s.(turn := Other(t)).SetTh(t, s.Th(t).(pc := TestFlag))
  {
    sched' := sched + [t];
    Extend(p, n, Init(), sched, t);
    if p.FenceAfterTurn? {
      Extend(p, n, Init(), sched', t);
      sched' := sched' + [t];
    }
  }

  /** Thread `t`, at the start of an iteration, raises its flag. */
  lemma RaiseAndGo(p: Fencing, n: nat, sched: seq<Tid>, t: Tid) returns (sched': seq<Tid>)
    requires var me := Run(p, n, Init(), sched).Th(t); me.pc.Head? && me.i < n
    ensures var s := Run(p, n, Init(), sched);
            Run(p, n, Init(), sched') == s.SetFlag(t, true).SetTh(t, s.Th(t).(pc := GiveTurn))
  {
    sched' := sched + [t] + [t];
    Extend(p, n, Init(), sched, t);
    Extend(p, n, Init(), sched + [t], t);
    if p.FenceBeforeTurn? {
      Extend(p, n, Init(), sched', t);
      sched' := sched' + [t];
    }
  }

  /** The bound is met: for any N >= 1 thread 1 does pass thread 0, which waits throughout. */
  lemma BypassHappens(p: Fencing, n: nat) returns (prefix: seq<Tid>)
    requires n >= 1
    ensures var s := Run(p, n, Init(), prefix);
            KeepsWaiting(p, n, s, [1], 0) && Entries(p, n, s, [1], 1) == 1
  {
    prefix := RaiseAndGo(p, n, [], 0);
    prefix := RaiseAndGo(p, n, prefix, 1);
    prefix := GiveAndWait(p, n, prefix, 1);
    Extend(p, n, Init(), prefix, 1);
    prefix := prefix + [1];
    prefix := GiveAndWait(p, n, prefix, 0);
    EntersNext(p, n, Run(p, n, Init(), prefix));
  }

  /** One step of thread 1 is its entry, while thread 0 waits. */
  lemma EntersNext(p: Fencing, n: nat, s: State)
    requires s.th0.pc.TestFlag? && s.th1.pc.TestTurn? && s.turn == 1
    ensures KeepsWaiting(p, n, s, [1], 0) && Entries(p, n, s, [1], 1) == 1
  {
    assert [1][..0] == [] && Run(p, n, s, [1]) == Step(p, n, s, 1);
    assert KeepsWaiting(p, n, s, [1][..0], 0) && Entries(p, n, s, [1][..0], 1) == 0;
  }

  // ---------------------------------------------------------------------
  // Progress and termination under fair scheduling
  // ---------------------------------------------------------------------

  /** Steps thread `th` still has to take, turns of the wait loop not counted. */
  function Rank(n: nat, th: Thread): int {
    if th.pc.End? then 0
    else 9 * (n - th.i) +
         match th.pc
         case Head => 1
         case RaiseFlag => 0
         case Fence1 => -1
         case GiveTurn => -2
         case Fence2 => -3
         case TestFlag => -4
         case TestTurn => -4
         case LoadCnt => -5
         case StoreCnt => -6
         case LowerFlag => -7
         case End => 0
  }

  function Measure(n: nat, s: State): int { Rank(n, s.th0) + Rank(n, s.th1) }

  lemma ThreadRank(p: Fencing, n: nat, t: Tid, me: Thread, otherFlag: bool, turn: int, cnt: int)
    requires 0 <= me.i <= n && (!me.pc.Head? && !me.pc.End? ==> me.i < n)
    ensures var me' := StepThread(p, n, t, me, otherFlag, turn, cnt);
            && 0 <= Rank(n, me') <= Rank(n, me)
            && (Rank(n, me') == Rank(n, me) <==> me.pc.End? || (Waiting(me.pc) && Waiting(me'.pc)))
  {
  }

  lemma OnlyOwnThread(p: Fencing, n: nat, s: State, t: Tid)
    ensures Step(p, n, s, t).Th(Other(t)) == s.Th(Other(t))
    ensures Step(p, n, s, t).Th(t) == StepThread(p, n, t, s.Th(t), s.Flag(Other(t)), s.turn, s.cnt)
    ensures Measure(n, s) == Rank(n, s.Th(t)) + Rank(n, s.Th(Other(t)))
  {
  }

  /** Every step lowers the measure, except a turn of the wait loop and a step of an ended thread. */
  lemma StepLowersMeasure(p: Fencing, n: nat, s: State, t: Tid)
    requires Inv(n, s)
    ensures 0 <= Measure(n, Step(p, n, s, t)) <= Measure(n, s)
    ensures Measure(n, Step(p, n, s, t)) == Measure(n, s) <==>
            s.Th(t).pc.End? || (Waiting(s.Th(t).pc) && Waiting(Step(p, n, s, t).Th(t).pc))
  {
    var o := Other(t);
    OnlyOwnThread(p, n, s, t);
    assert LocalInv(n, s, t) && LocalInv(n, s, o);
    ThreadRank(p, n, t, s.Th(t), s.Flag(o), s.turn, s.cnt);
    ThreadRank(p, n, o, s.Th(o), s.Flag(t), s.turn, s.cnt);
    assert Measure(n, Step(p, n, s, t)) == Rank(n, Step(p, n, s, t).Th(t)) + Rank(n, s.Th(o));
  }

  /** Own steps after which `t` is sure to have lowered the measure; 0 means it may have to wait. */
  function StepsToProgress(s: State, t: Tid): nat {
    var pc, o := s.Th(t).pc, Other(t);
    match pc
    case End => 0
    case TestFlag => if !s.Flag(o) then 1 else if s.turn != o then 2 else 0
    case TestTurn => if s.turn != o then 1 else if !s.Flag(o) then 2 else 0
    case _ => 1
  }

  /** As long as someone is unfinished, some thread needs at most two own steps. */
  lemma SomeoneCanMove(n: nat, s: State) returns (t: Tid)
    requires Inv(n, s) && !Finished(s)
    ensures 1 <= StepsToProgress(s, t) <= 2
  {
    t := if StepsToProgress(s, 0) != 0 then 0 else 1;
  }

  function TurnsOf(sched: seq<Tid>, t: Tid): nat {
    if sched == [] then 0
    else TurnsOf(sched[..|sched| - 1], t) + if sched[|sched| - 1] == t then 1 else 0
  }

  /** A step that does not lower the measure brings `t` nearer if it is its own, and never puts it back. */
  lemma StepTowardsProgress(p: Fencing, n: nat, s: State, t: Tid, u: Tid)
    requires Inv(n, s) && StepsToProgress(s, t) != 0
    requires Measure(n, Step(p, n, s, u)) == Measure(n, s)
    ensures var s' := Step(p, n, s, u);
            && StepsToProgress(s', t) != 0
            && StepsToProgress(s', t) + (if u == t then 1 else 0) <= StepsToProgress(s, t)
  {
    StepLowersMeasure(p, n, s, u);
  }

  /** Whatever the other thread does, `t` makes progress once it has had its steps. */
  lemma {:induction false} ProgressIsMade(p: Fencing, n: nat, s: State, sched: seq<Tid>, t: Tid)
    requires Inv(n, s) && StepsToProgress(s, t) != 0
    ensures var s' := Run(p, n, s, sched);
            && 0 <= Measure(n, s') <= Measure(n, s)
            && (|| Measure(n, s') < Measure(n, s)
                || (&& StepsToProgress(s', t) != 0
                    && StepsToProgress(s', t) + TurnsOf(sched, t) <= StepsToProgress(s, t)))
  {
    RunKeepsInv(p, n, s, sched);
    if sched != [] {
      var before := sched[..|sched| - 1];
      ProgressIsMade(p, n, s, before, t);
      RunKeepsInv(p, n, s, before);
      var mid, u := Run(p, n, s, before), sched[|sched| - 1];
      StepLowersMeasure(p, n, mid, u);
      if Measure(n, Step(p, n, mid, u)) == Measure(n, s) {
        StepTowardsProgress(p, n, mid, t, u);
      }
    }
  }

  /** Some unfinished thread, run alone for two steps, gets on. */
  lemma AloneProgress(p: Fencing, n: nat, sched: seq<Tid>) returns (t: Tid)
    requires !Finished(Run(p, n, Init(), sched))
    ensures var s := Run(p, n, Init(), sched); Measure(n, Run(p, n, s, [t, t])) < Measure(n, s)
  {
    var s := Run(p, n, Init(), sched);
    RunKeepsInv(p, n, Init(), sched);
    t := SomeoneCanMove(n, s);
    assert [t, t][..|[t, t]| - 1] == [t] && [t][..|[t]| - 1] == [];
    assert TurnsOf([t], t) == 1;
    ProgressIsMade(p, n, s, [t, t], t);
  }

  predicate FairRound(round: seq<Tid>) { TurnsOf(round, 0) >= 2 && TurnsOf(round, 1) >= 2 }

  function Concat(rounds: seq<seq<Tid>>): seq<Tid> {
    if rounds == [] then [] else Concat(rounds[..|rounds| - 1]) + rounds[|rounds| - 1]
  }

  lemma {:induction false} RunConcat(p: Fencing, n: nat, s: State, a: seq<Tid>, b: seq<Tid>)
    ensures Run(p, n, s, a + b) == Run(p, n, Run(p, n, s, a), b)
  {
    if b == [] {
      assert a + b == a;
    } else {
      assert (a + b)[..|a + b| - 1] == a + b[..|b| - 1];
      RunConcat(p, n, s, a, b[..|b| - 1]);
    }
  }

  lemma RoundLowersMeasure(p: Fencing, n: nat, s: State, round: seq<Tid>)
    requires Inv(n, s) && FairRound(round)
    ensures var s' := Run(p, n, s, round); Finished(s') || Measure(n, s') < Measure(n, s)
  {
    if Finished(s) {
      StaysFinished(p, n, s, round);
    } else {
      var t := SomeoneCanMove(n, s);
      ProgressIsMade(p, n, s, round, t);
    }
  }

  lemma {:induction false} RoundsLowerMeasure(p: Fencing, n: nat, rounds: seq<seq<Tid>>)
    requires forall k :: 0 <= k < |rounds| ==> FairRound(rounds[k])
    ensures var s := Run(p, n, Init(), Concat(rounds)); Finished(s) || Measure(n, s) <= 2 * (9 * n + 1) - |rounds|
  {
    if rounds != [] {
      var before, round := rounds[..|rounds| - 1], rounds[|rounds| - 1];
      var s := Run(p, n, Init(), Concat(before));
      RunKeepsInv(p, n, Init(), Concat(before));
      RoundsLowerMeasure(p, n, before);
      RunConcat(p, n, Init(), Concat(before), round);
      RoundLowersMeasure(p, n, s, round);
      if Finished(s) { StaysFinished(p, n, s, round); }
    }
  }

  lemma {:induction false} StaysFinished(p: Fencing, n: nat, s: State, sched: seq<Tid>)
    requires Finished(s)
    ensures Run(p, n, s, sched) == s
  {
    if sched != [] { StaysFinished(p, n, s, sched[..|sched| - 1]); }
  }

  /** Every run in which both threads get two steps per round is over after 18N + 3 rounds, with cnt == 2N. */
  lemma FairRunsTerminate(p: Fencing, n: nat, rounds: seq<seq<Tid>>)
    requires forall k :: 0 <= k < |rounds| ==> FairRound(rounds[k])
    requires |rounds| > 2 * (9 * n + 1)
    ensures var s := Run(p, n, Init(), Concat(rounds)); Finished(s) && s.cnt == 2 * n
  {
    var s := Run(p, n, Init(), Concat(rounds));
    RoundsLowerMeasure(p, n, rounds);
    RunKeepsInv(p, n, Init(), Concat(rounds));
    StepLowersMeasure(p, n, s, 0);
    NoLostIncrement(p, n, Concat(rounds));
  }
}

/**
 Peterson's lock on x86-TSO: each thread has a FIFO store buffer, loads see the
 thread's own newest buffered store first, the oldest store of a buffer may
 reach memory at any time, and a fence waits for an empty buffer.
 */
module PetersonTSO {
  import opened PetersonProgram
  import SC = PetersonSC

  datatype Write = WFlag(b: bool) | WTurn(v: int) | WCnt(v: int)  // WFlag writes the writer's own flag

  datatype Thread = Thread(pc: Pc, i: int, tmp: int, buf: seq<Write>)

  datatype State = State(flag0: bool, flag1: bool, turn: int, cnt: int, th0: Thread, th1: Thread) {
    function Th(t: Tid): Thread { if t == 0 then th0 else th1 }

    function Flag(t: Tid): bool { if t == 0 then flag0 else flag1 }

    function SetTh(t: Tid, th: Thread): State { if t == 0 then this.(th0 := th) else this.(th1 := th) }

    function SetFlag(t: Tid, b: bool): State { if t == 0 then this.(flag0 := b) else this.(flag1 := b) }

    function Commit(t: Tid, w: Write): State {
      match w
      case WFlag(b) => SetFlag(t, b)
      case WTurn(v) => this.(turn := v)
      case WCnt(v) => this.(cnt := v)
    }
  }

  datatype Action = Exec(t: Tid) | Drain(t: Tid)

  function Init(): State {
    State(false, false, 2, 0, Thread(Head, 0, 0, []), Thread(Head, 0, 0, []))
  }

  /** What a load of `turn` sees past the thread's own buffer. */
  function ReadTurn(buf: seq<Write>, mem: int): int {
    if buf == [] then mem
    else if buf[|buf| - 1].WTurn? then buf[|buf| - 1].v
    else ReadTurn(buf[..|buf| - 1], mem)
  }

  function ReadCnt(buf: seq<Write>, mem: int): int {
    if buf == [] then mem
    else if buf[|buf| - 1].WCnt? then buf[|buf| - 1].v
    else ReadCnt(buf[..|buf| - 1], mem)
  }

  /** One instruction of thread `t`: it changes nothing but the thread itself. The flag
      it reads is always the other thread's, so that read is never forwarded. */
  function ExecThread(p: Fencing, n: nat, t: Tid, me: Thread, otherFlag: bool, turn: int, cnt: int): Thread {
    match me.pc
    case Head => me.(pc := if me.i < n then RaiseFlag else End)
    case RaiseFlag => me.(pc := AfterRaise(p), buf := me.buf + [WFlag(true)])
    case Fence1 => if me.buf == [] then me.(pc := GiveTurn) else me
    case GiveTurn => me.(pc := AfterGive(p), buf := me.buf + [WTurn(Other(t))])
    case Fence2 => if me.buf == [] then me.(pc := TestFlag) else me
    case TestFlag => me.(pc := if otherFlag then TestTurn else LoadCnt)
    case TestTurn => me.(pc := if ReadTurn(me.buf, turn) == Other(t) then TestFlag else LoadCnt)
    case LoadCnt => me.(pc := StoreCnt, tmp := ReadCnt(me.buf, cnt))
    case StoreCnt => me.(pc := LowerFlag, buf := me.buf + [WCnt(me.tmp + 1)])
    case LowerFlag => me.(pc := Head, i := me.i + 1, buf := me.buf + [WFlag(false)])
    case End => me
  }

  function ExecStep(p: Fencing, n: nat, s: State, t: Tid): State {
    s.SetTh(t, ExecThread(p, n, t, s.Th(t), s.Flag(Other(t)), s.turn, s.cnt))
  }

  /** The oldest buffered store of `t` reaches memory. */
  function DrainStep(s: State, t: Tid): State {
    var me := s.Th(t);
    if me.buf == [] then s else s.SetTh(t, me.(buf := me.buf[1..])).Commit(t, me.buf[0])
  }

  function Step(p: Fencing, n: nat, s: State, a: Action): State {
    match a
    case Exec(t) => ExecStep(p, n, s, t)
    case Drain(t) => DrainStep(s, t)
  }

  function Run(p: Fencing, n: nat, s: State, run: seq<Action>): State {
    if run == [] then s
    else Step(p, n, Run(p, n, s, run[..|run| - 1]), run[|run| - 1])
  }

  predicate BothInCs(s: State) { InCs(s.th0.pc) && InCs(s.th1.pc) }

  predicate Done(s: State) { s.th0.pc.End? && s.th1.pc.End? && s.th0.buf == [] && s.th1.buf == [] }

  /** The action does not leave the wait loop, or its deciding read is made with an empty own buffer. */
  predicate CleanStep(p: Fencing, n: nat, s: State, a: Action) {
    a.Exec? && Waiting(s.Th(a.t).pc) && InCs(Step(p, n, s, a).Th(a.t).pc) ==> s.Th(a.t).buf == []
  }

  predicate CleanRun(p: Fencing, n: nat, s: State, run: seq<Action>) {
    run != [] ==>
      && CleanRun(p, n, s, run[..|run| - 1])
      && CleanStep(p, n, Run(p, n, s, run[..|run| - 1]), run[|run| - 1])
  }

  // ---------------------------------------------------------------------
  // The invariant of clean runs
  // ---------------------------------------------------------------------

  // One iteration issues the stores cnt, flag = false, flag = true, turn = other
  // in this order, counting from the critical section. A buffer is always the
  // unfinished tail of the stores issued so far.

  /** How many of those four stores a thread at `pc` has issued. */
  function IssuedStores(pc: Pc): nat {
    match pc
    case LoadCnt => 0
    case StoreCnt => 0
    case LowerFlag => 1
    case Head => 2
    case RaiseFlag => 2
    case End => 2
    case Fence1 => 3
    case GiveTurn => 3
    case Fence2 => 4
    case TestFlag => 4
    case TestTurn => 4
  }

  function StoreAt(t: Tid, cnt: int, k: int): Write {
    if k == 0 then WCnt(cnt + 1)
    else if k == 1 then WFlag(false)
    else if k == 2 then WFlag(true)
    else WTurn(Other(t))
  }

  /** How many of the issued stores have reached memory. */
  function Drained(th: Thread): int { IssuedStores(th.pc) - |th.buf| }

  /** In the critical section, or with the increment not yet in memory. */
  predicate Holding(th: Thread) { InCs(th.pc) || Drained(th) == 0 }

  /** The turn has been given away visibly. */
  predicate Posted(th: Thread) { InCs(th.pc) || Drained(th) == 4 }

  predicate BufferInv(t: Tid, me: Thread, cnt: int) {
    && 0 <= Drained(me)
    && (forall j :: 0 <= j < |me.buf| ==> me.buf[j] == StoreAt(t, cnt, Drained(me) + j))
  }

  /** What holds of thread `t`, in state `me`, beside the other thread's state `ot`. */
  predicate LocalInv(n: nat, t: Tid, me: Thread, ot: Thread, flag: bool, turn: int, cnt: int) {
    && 0 <= me.i <= n
    && (me.pc.End? ==> me.i == n)
    && (!me.pc.Head? && !me.pc.End? ==> me.i < n)
    && BufferInv(t, me, cnt)
    && (flag <==> Drained(me) != 2)
    && (Posted(me) ==> turn != 2)
    && (Holding(me) && Posted(ot) ==> turn == t)
    && (me.pc.StoreCnt? ==> me.tmp == cnt)
  }

  /** Increments whose store has been issued, and those still buffered. */
  function Issued(th: Thread): int { th.i + if th.pc.LowerFlag? then 1 else 0 }

  function Buffered(th: Thread): int { if th.buf != [] && th.buf[0].WCnt? then 1 else 0 }

  /** The invariant as seen by thread `t`; the other thread sees the same. */
  predicate PairInv(n: nat, t: Tid, me: Thread, ot: Thread, flag: bool, otherFlag: bool, turn: int, cnt: int) {
    && 0 <= turn <= 2
    && LocalInv(n, t, me, ot, flag, turn, cnt)
    && LocalInv(n, Other(t), ot, me, otherFlag, turn, cnt)
    && !(Holding(me) && Holding(ot))
    && cnt + Buffered(me) + Buffered(ot) == Issued(me) + Issued(ot)
  }

  predicate View(n: nat, s: State, t: Tid) {
    PairInv(n, t, s.Th(t), s.Th(Other(t)), s.Flag(t), s.Flag(Other(t)), s.turn, s.cnt)
  }

  predicate Inv(n: nat, s: State) { View(n, s, 0) }

  lemma ViewsAgree(n: nat, s: State)
    ensures View(n, s, 0) <==> View(n, s, 1)
  {
    assert Other(0) == 1 && Other(1) == 0;
  }

  predicate CleanExit(me: Thread, me': Thread) { Waiting(me.pc) && InCs(me'.pc) ==> me.buf == [] }

  lemma ExecKeepsBuffer(p: Fencing, n: nat, t: Tid, me: Thread, otherFlag: bool, turn: int, cnt: int)
    requires BufferInv(t, me, cnt) && (me.pc.StoreCnt? ==> me.tmp == cnt)
    requires CleanExit(me, ExecThread(p, n, t, me, otherFlag, turn, cnt))
    ensures BufferInv(t, ExecThread(p, n, t, me, otherFlag, turn, cnt), cnt)
  {
    var me' := ExecThread(p, n, t, me, otherFlag, turn, cnt);
    if me'.buf == me.buf {
      assert me.buf == [] || Drained(me') == Drained(me);
    } else {
      assert me'.buf == me.buf + [StoreAt(t, cnt, IssuedStores(me.pc))] && Drained(me') == Drained(me);
    }
  }

  lemma ExecKeepsOwn(p: Fencing, n: nat, t: Tid, me: Thread, ot: Thread,
                     flag: bool, otherFlag: bool, turn: int, cnt: int)
    requires PairInv(n, t, me, ot, flag, otherFlag, turn, cnt)
    requires CleanExit(me, ExecThread(p, n, t, me, otherFlag, turn, cnt))
    ensures LocalInv(n, t, ExecThread(p, n, t, me, otherFlag, turn, cnt), ot, flag, turn, cnt)
  {
    ExecKeepsBuffer(p, n, t, me, otherFlag, turn, cnt);
  }

  lemma ExecKeepsRest(p: Fencing, n: nat, t: Tid, me: Thread, ot: Thread,
                      flag: bool, otherFlag: bool, turn: int, cnt: int)
    requires PairInv(n, t, me, ot, flag, otherFlag, turn, cnt)
    requires CleanExit(me, ExecThread(p, n, t, me, otherFlag, turn, cnt))
    ensures var me' := ExecThread(p, n, t, me, otherFlag, turn, cnt);
            && LocalInv(n, Other(t), ot, me', otherFlag, turn, cnt)
            && !(Holding(me') && Holding(ot))
            && Buffered(me') - Issued(me') == Buffered(me) - Issued(me)
  {
  }

  lemma DrainKeepsPairInv(n: nat, t: Tid, me: Thread, ot: Thread,
                     flag: bool, otherFlag: bool, turn: int, cnt: int)
    requires PairInv(n, t, me, ot, flag, otherFlag, turn, cnt) && me.buf != []
    ensures var me' := me.(buf := me.buf[1..]);
            match me.buf[0]
            case WFlag(b) => PairInv(n, t, me', ot, b, otherFlag, turn, cnt)
            case WTurn(v) => PairInv(n, t, me', ot, flag, otherFlag, v, cnt)
            case WCnt(v) => PairInv(n, t, me', ot, flag, otherFlag, turn, v)
  {
  }

  lemma ExecKeepsView(p: Fencing, n: nat, s: State, t: Tid)
    requires View(n, s, t) && CleanStep(p, n, s, Exec(t))
    ensures View(n, ExecStep(p, n, s, t), t)
  {
    var me, ot, flag, otherFlag := s.Th(t), s.Th(Other(t)), s.Flag(t), s.Flag(Other(t));
    ExecKeepsOwn(p, n, t, me, ot, flag, otherFlag, s.turn, s.cnt);
    ExecKeepsRest(p, n, t, me, ot, flag, otherFlag, s.turn, s.cnt);
  }

  lemma DrainKeepsView(n: nat, s: State, t: Tid)
    requires View(n, s, t)
    ensures View(n, DrainStep(s, t), t)
  {
    var me, ot := s.Th(t), s.Th(Other(t));
    if me.buf != [] { DrainKeepsPairInv(n, t, me, ot, s.Flag(t), s.Flag(Other(t)), s.turn, s.cnt); }
  }

  lemma StepKeepsView(p: Fencing, n: nat, s: State, a: Action)
    requires View(n, s, a.t) && CleanStep(p, n, s, a)
    ensures View(n, Step(p, n, s, a), a.t)
  {
    if a.Exec? { ExecKeepsView(p, n, s, a.t); } else { DrainKeepsView(n, s, a.t); }
  }

  lemma StepKeepsInv(p: Fencing, n: nat, s: State, a: Action)
    requires Inv(n, s) && CleanStep(p, n, s, a)
    ensures Inv(n, Step(p, n, s, a))
  {
    ViewsAgree(n, s);
    StepKeepsView(p, n, s, a);
    ViewsAgree(n, Step(p, n, s, a));
  }

  lemma {:induction false} CleanRunKeepsInv(p: Fencing, n: nat, s: State, run: seq<Action>)
    requires Inv(n, s) && CleanRun(p, n, s, run)
    ensures Inv(n, Run(p, n, s, run))
  {
    if run != [] {
      CleanRunKeepsInv(p, n, s, run[..|run| - 1]);
      StepKeepsInv(p, n, Run(p, n, s, run[..|run| - 1]), run[|run| - 1]);
    }
  }

  // ---------------------------------------------------------------------
  // What clean runs guarantee
  // ---------------------------------------------------------------------

  /** Mutual exclusion, extended to the moment the increment is visible in memory. */
  lemma CleanMutualExclusion(p: Fencing, n: nat, run: seq<Action>)
    requires CleanRun(p, n, Init(), run)
    ensures var s := Run(p, n, Init(), run); !BothInCs(s) && !(Holding(s.th0) && Holding(s.th1))
  {
    CleanRunKeepsInv(p, n, Init(), run);
  }

  /** No lost update: memory plus at most one buffered increment is what was issued, and 2N at the end. */
  lemma CleanCount(p: Fencing, n: nat, run: seq<Action>)
    requires CleanRun(p, n, Init(), run)
    ensures var s := Run(p, n, Init(), run);
            && s.cnt + Buffered(s.th0) + Buffered(s.th1) == Issued(s.th0) + Issued(s.th1)
            && Buffered(s.th0) + Buffered(s.th1) <= 1
            && (Done(s) ==> s.cnt == 2 * n)
  {
    CleanRunKeepsInv(p, n, Init(), run);
  }

  // ---------------------------------------------------------------------
  // When every run is clean
  // ---------------------------------------------------------------------

  predicate WaitDrained(th: Thread) { Waiting(th.pc) ==> th.buf == [] }

  lemma LateFenceThread(n: nat, t: Tid, me: Thread, otherFlag: bool, turn: int, cnt: int)
    requires WaitDrained(me)
    ensures WaitDrained(ExecThread(FenceAfterTurn, n, t, me, otherFlag, turn, cnt))
  {
  }

  /** A fence after the turn store makes every run clean. */
  lemma {:induction false} LateFenceRunsAreClean(n: nat, run: seq<Action>)
    ensures CleanRun(FenceAfterTurn, n, Init(), run)
    ensures var s := Run(FenceAfterTurn, n, Init(), run); WaitDrained(s.th0) && WaitDrained(s.th1)
  {
    if run != [] {
      var before, t := run[..|run| - 1], run[|run| - 1].t;
      var s := Run(FenceAfterTurn, n, Init(), before);
      LateFenceRunsAreClean(n, before);
      LateFenceThread(n, t, s.Th(t), s.Flag(Other(t)), s.turn, s.cnt);
    }
  }

  predicate NeverStarted(th: Thread) { (th.pc.Head? || th.pc.End?) && th.i == 0 && th.buf == [] }

  /** With nothing to do, nobody enters. */
  lemma {:induction false} EmptyRunsAreClean(p: Fencing, run: seq<Action>)
    ensures CleanRun(p, 0, Init(), run)
    ensures var s := Run(p, 0, Init(), run); NeverStarted(s.th0) && NeverStarted(s.th1)
  {
    if run != [] {
      var before, a := run[..|run| - 1], run[|run| - 1];
      var s := Run(p, 0, Init(), before);
      EmptyRunsAreClean(p, before);
      NothingStarts(p, s, a);
    }
  }

  lemma NothingStarts(p: Fencing, s: State, a: Action)
    requires NeverStarted(s.th0) && NeverStarted(s.th1)
    ensures NeverStarted(Step(p, 0, s, a).th0) && NeverStarted(Step(p, 0, s, a).th1) && CleanStep(p, 0, s, a)
  {
    assert NeverStarted(s.Th(a.t));
    assert a.Exec? ==> NeverStarted(ExecThread(p, 0, a.t, s.Th(a.t), s.Flag(Other(a.t)), s.turn, s.cnt));
  }

  // ---------------------------------------------------------------------
  // Sequential consistency inside TSO
  // ---------------------------------------------------------------------

  function LiftThread(th: SC.Thread): Thread { Thread(th.pc, th.i, th.tmp, []) }

  function Lift(s: SC.State): State {
    State(s.flag0, s.flag1, s.turn, s.cnt, LiftThread(s.th0), LiftThread(s.th1))
  }

  /** Each instruction is followed at once by the drain of what it stored. */
  function Expand(sched: seq<Tid>): seq<Action> {
    if sched == [] then []
    else Expand(sched[..|sched| - 1]) + [Exec(sched[|sched| - 1])] + [Drain(sched[|sched| - 1])]
  }

  lemma RunExtend(p: Fencing, n: nat, s: State, run: seq<Action>, a: Action)
    ensures Run(p, n, s, run + [a]) == Step(p, n, Run(p, n, s, run), a)
    ensures CleanRun(p, n, s, run + [a]) <==> CleanRun(p, n, s, run) && CleanStep(p, n, Run(p, n, s, run), a)
  {
    assert (run + [a])[..|run + [a]| - 1] == run;
  }

  /** Every sequentially consistent run is a clean TSO run with the same states. */
  lemma {:induction false} ScRunsAreCleanTsoRuns(p: Fencing, n: nat, sched: seq<Tid>)
    ensures CleanRun(p, n, Init(), Expand(sched))
    ensures Run(p, n, Init(), Expand(sched)) == Lift(SC.Run(p, n, SC.Init(), sched))
  {
    if sched != [] {
      var before, t := sched[..|sched| - 1], sched[|sched| - 1];
      ScRunsAreCleanTsoRuns(p, n, before);
      RunExtend(p, n, Init(), Expand(before), Exec(t));
      RunExtend(p, n, Init(), Expand(before) + [Exec(t)], Drain(t));
      StepLifts(p, n, SC.Run(p, n, SC.Init(), before), t);
    }
  }

  lemma StepLifts(p: Fencing, n: nat, s: SC.State, t: Tid)
    ensures DrainStep(ExecStep(p, n, Lift(s), t), t) == Lift(SC.Step(p, n, s, t))
    ensures CleanStep(p, n, Lift(s), Exec(t))
  {
    var l, s' := LiftThread(s.Th(t)), SC.Step(p, n, s, t);
    var e := ExecThread(p, n, t, l, s.Flag(Other(t)), s.turn, s.cnt);
    assert Lift(s).Th(t) == l && ExecStep(p, n, Lift(s), t) == Lift(s).SetTh(t, e);
    assert e.(buf := []) == LiftThread(s'.Th(t));
    assert s'.Th(Other(t)) == s.Th(Other(t)) && s'.Flag(Other(t)) == s.Flag(Other(t));
    match s.Th(t).pc
    case RaiseFlag => assert e.buf == [WFlag(true)];
    case GiveTurn => assert e.buf == [WTurn(Other(t))];
    case StoreCnt => assert e.buf == [WCnt(s.Th(t).tmp + 1)];
    case LowerFlag => assert e.buf == [WFlag(false)];
    case _ => assert e.buf == [];
  }
}

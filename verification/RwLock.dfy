/**
 The Windows reader/writer lock wrapper: one `native_rw_unlock` for both modes,
 which picks the release call from a shared flag. Any number of threads; reading
 or writing the flag and acquiring or releasing the slim lock are separate steps.
 */
module RwLock {

  /** The operating system's slim lock, as specified: it counts shared owners and knows no threads. */
  datatype Srw = Free | Shared(owners: nat) | Exclusive

  datatype Mode = Unheld | Reader | Writer

  datatype Pc =
    | Idle        // between two calls
    | WantShared  // in native_rw_rdlock
    | WantExcl    // in native_rw_wrlock
    | SetFlag     // exclusive lock acquired, have_exclusive_srwlock= TRUE to come
    | ReadFlag    // in native_rw_unlock, before the test
    | ClearFlag   // the test was true
    | RelExcl     // flag cleared, ReleaseSRWLockExclusive to come
    | RelShared   // the test was false, ReleaseSRWLockShared to come

  /** What a thread does next and, for the statements below, what it has acquired. */
  datatype Thread = Thread(pc: Pc, mode: Mode)

  datatype State = State(srw: Srw, flag: bool, th: seq<Thread>, fault: bool)

  /** The calls a thread may start, and its next step inside a call. */
  datatype Action = CallRdLock | CallTryRdLock | CallWrLock | CallTryWrLock | CallUnlock | Continue

  function Init(n: nat): State { State(Free, false, seq(n, _ => Thread(Idle, Unheld)), false) }

  predicate CanShare(srw: Srw) { !srw.Exclusive? }

  function AcquireShared(srw: Srw): Srw
    requires CanShare(srw)
  {
    Shared(1 + if srw.Shared? then srw.owners else 0)
  }

  function ReleaseShared(srw: Srw): Srw
    requires srw.Shared? && srw.owners > 0
  {
    if srw.owners == 1 then Free else Shared(srw.owners - 1)
  }

  function Put(s: State, t: nat, pc: Pc, mode: Mode): State
    requires t < |s.th|
  {
    s.(th := s.th[t := Thread(pc, mode)])
  }

  /** One step of thread `t`. A blocked acquisition stays where it is; releasing the slim
      lock in a mode in which it is not owned is a fault. */
  function Step(s: State, t: nat, a: Action): State
    requires t < |s.th|
  {
    var me := s.th[t];
    if me.pc.Idle? then
      match a
      case CallRdLock => Put(s, t, WantShared, me.mode)
      case CallTryRdLock => if CanShare(s.srw) then Put(s, t, Idle, Reader).(srw := AcquireShared(s.srw)) else s
      case CallWrLock => Put(s, t, WantExcl, me.mode)
      case CallTryWrLock => if s.srw.Free? then Put(s, t, SetFlag, Writer).(srw := Exclusive) else s
      case CallUnlock => Put(s, t, ReadFlag, me.mode)
      case Continue => s
    else if !a.Continue? then s
    else
      match me.pc
      case Idle => s
      case WantShared => if CanShare(s.srw) then Put(s, t, Idle, Reader).(srw := AcquireShared(s.srw)) else s
      case WantExcl => if s.srw.Free? then Put(s, t, SetFlag, Writer).(srw := Exclusive) else s
      case SetFlag => Put(s, t, Idle, me.mode).(flag := true)
      case ReadFlag => Put(s, t, if s.flag then ClearFlag else RelShared, me.mode)
      case ClearFlag => Put(s, t, RelExcl, me.mode).(flag := false)
      case RelExcl => if s.srw.Exclusive? then Put(s, t, Idle, Unheld).(srw := Free) else s.(fault := true)
      case RelShared =>
        if s.srw.Shared? && s.srw.owners > 0
        then Put(s, t, Idle, Unheld).(srw := ReleaseShared(s.srw)) else s.(fault := true)
  }

  /** The caller's side of the contract: lock when holding nothing, unlock only what is held. */
  predicate Disciplined(s: State, t: nat, a: Action)
    requires t < |s.th|
  {
    s.th[t].pc.Idle? ==>
      match a
      case CallUnlock => !s.th[t].mode.Unheld?
      case Continue => true
      case _ => s.th[t].mode.Unheld?
  }

  predicate ValidRun(n: nat, run: seq<(nat, Action)>) { forall k :: 0 <= k < |run| ==> run[k].0 < n }

  function Run(n: nat, run: seq<(nat, Action)>): (s: State)
    requires ValidRun(n, run)
    ensures |s.th| == n
  {
    if run == [] then Init(n)
    else Step(Run(n, run[..|run| - 1]), run[|run| - 1].0, run[|run| - 1].1)
  }

  predicate DisciplinedRun(n: nat, run: seq<(nat, Action)>)
    requires ValidRun(n, run)
  {
    run != [] ==>
      && DisciplinedRun(n, run[..|run| - 1])
      && Disciplined(Run(n, run[..|run| - 1]), run[|run| - 1].0, run[|run| - 1].1)
  }

  // ---------------------------------------------------------------------
  // The specification: who holds the lock in which mode
  // ---------------------------------------------------------------------

  /** The abstract lock: a set of readers and at most one writer, never both. */
  datatype Holders = Holders(readers: set<nat>, writers: set<nat>) {
    predicate Safe() { |writers| <= 1 && (writers != {} ==> readers == {}) }
  }

  function ReadersOf(th: seq<Thread>): set<nat> { set t: nat | t < |th| && th[t].mode.Reader? }

  function WritersOf(th: seq<Thread>): set<nat> { set t: nat | t < |th| && th[t].mode.Writer? }

  function Abs(s: State): Holders { Holders(ReadersOf(s.th), WritersOf(s.th)) }

  /** What one step may do to the abstract lock: nothing, or one grant or release of one thread. */
  ghost predicate AbstractStep(h: Holders, h': Holders, t: nat) {
    || h' == h
    || (h.writers == {} && t !in h.readers && h' == h.(readers := h.readers + {t}))
    || (h.writers == {} && h.readers == {} && h' == h.(writers := {t}))
    || (t in h.readers && h' == h.(readers := h.readers - {t}))
    || (h.writers == {t} && h' == h.(writers := {}))
  }

  // ---------------------------------------------------------------------
  // The invariant
  // ---------------------------------------------------------------------

  /** A thread past the acquisition of the exclusive lock whose flag store has happened and is not yet undone. */
  predicate OwnsFlag(me: Thread) { me.mode.Writer? && (me.pc.Idle? || me.pc.ReadFlag? || me.pc.ClearFlag?) }

  predicate ThreadOk(me: Thread) {
    && (me.pc.WantShared? || me.pc.WantExcl? ==> me.mode.Unheld?)
    && (me.pc.ReadFlag? ==> !me.mode.Unheld?)
    && (me.pc.SetFlag? || me.pc.ClearFlag? || me.pc.RelExcl? ==> me.mode.Writer?)
    && (me.pc.RelShared? ==> me.mode.Reader?)
  }

  ghost predicate Inv(s: State) {
    && !s.fault
    && (forall t :: 0 <= t < |s.th| ==> ThreadOk(s.th[t]))
    && (forall t :: 0 <= t < |s.th| && s.th[t].mode.Writer? ==> WritersOf(s.th) == {t} && s.flag == OwnsFlag(s.th[t]))
    && (WritersOf(s.th) == {} ==> !s.flag)
    && match s.srw
       case Free => ReadersOf(s.th) == {} && WritersOf(s.th) == {}
       case Shared(k) => k > 0 && |ReadersOf(s.th)| == k && WritersOf(s.th) == {}
       case Exclusive => ReadersOf(s.th) == {} && WritersOf(s.th) != {}
  }

  /** Changing one thread's mode moves that thread between the sets and nothing else. */
  lemma ModeChange(th: seq<Thread>, t: nat, me: Thread)
    requires t < |th|
    ensures ReadersOf(th[t := me]) == if me.mode.Reader? then ReadersOf(th) + {t} else ReadersOf(th) - {t}
    ensures WritersOf(th[t := me]) == if me.mode.Writer? then WritersOf(th) + {t} else WritersOf(th) - {t}
  {
    var th' := th[t := me];
    forall u: nat
      ensures u in ReadersOf(th') <==> (if u == t then me.mode.Reader? else u in ReadersOf(th))
      ensures u in WritersOf(th') <==> (if u == t then me.mode.Writer? else u in WritersOf(th))
    {
    }
  }

  lemma GrantShared(s: State, t: nat)
    requires t < |s.th| && Inv(s) && s.th[t].mode.Unheld? && CanShare(s.srw)
    ensures Inv(Put(s, t, Idle, Reader).(srw := AcquireShared(s.srw)))
  {
    ModeChange(s.th, t, Thread(Idle, Reader));
    assert t !in ReadersOf(s.th);
  }

  lemma GrantExclusive(s: State, t: nat)
    requires t < |s.th| && Inv(s) && s.srw.Free?
    ensures Inv(Put(s, t, SetFlag, Writer).(srw := Exclusive))
  {
    ModeChange(s.th, t, Thread(SetFlag, Writer));
  }

  /** The release a thread has chosen is the one for the mode it holds, and the slim lock is owned in it. */
  lemma ReleaseIsRight(s: State, t: nat)
    requires t < |s.th| && Inv(s)
    ensures s.th[t].pc.RelShared? ==> s.th[t].mode.Reader? && s.srw.Shared? && s.srw.owners > 0
    ensures s.th[t].pc.RelExcl? ==> s.th[t].mode.Writer? && s.srw.Exclusive?
  {
    assert t in ReadersOf(s.th) <==> s.th[t].mode.Reader?;
    assert t in WritersOf(s.th) <==> s.th[t].mode.Writer?;
  }

  lemma DropShared(s: State, t: nat)
    requires t < |s.th| && Inv(s) && s.th[t].pc.RelShared?
    ensures s.srw.Shared? && s.srw.owners > 0
    ensures Inv(Put(s, t, Idle, Unheld).(srw := ReleaseShared(s.srw)))
  {
    ReleaseIsRight(s, t);
    ModeChange(s.th, t, Thread(Idle, Unheld));
    assert t in ReadersOf(s.th);
    assert |ReadersOf(s.th) - {t}| == |ReadersOf(s.th)| - 1;
  }

  lemma DropExclusive(s: State, t: nat)
    requires t < |s.th| && Inv(s) && s.th[t].pc.RelExcl?
    ensures Inv(Put(s, t, Idle, Unheld).(srw := Free))
  {
    ReleaseIsRight(s, t);
    ModeChange(s.th, t, Thread(Idle, Unheld));
  }

  lemma SameModeSameHolders(s: State, t: nat, pc: Pc)
    requires t < |s.th|
    ensures ReadersOf(s.th[t := Thread(pc, s.th[t].mode)]) == ReadersOf(s.th)
    ensures WritersOf(s.th[t := Thread(pc, s.th[t].mode)]) == WritersOf(s.th)
  {
    ModeChange(s.th, t, Thread(pc, s.th[t].mode));
    assert t in ReadersOf(s.th) <==> s.th[t].mode.Reader?;
    assert t in WritersOf(s.th) <==> s.th[t].mode.Writer?;
  }

  /** A move inside a call: the thread keeps its mode, a writer's flag follows its program point. */
  lemma MoveKeepsInv(s: State, t: nat, pc: Pc, flag: bool)
    requires t < |s.th| && Inv(s) && ThreadOk(Thread(pc, s.th[t].mode))
    requires flag == if s.th[t].mode.Writer? then OwnsFlag(Thread(pc, Writer)) else s.flag
    ensures Inv(Put(s, t, pc, s.th[t].mode).(flag := flag))
  {
    SameModeSameHolders(s, t, pc);
    assert t in WritersOf(s.th) <==> s.th[t].mode.Writer?;
  }

  /** A reader in the unlock call reads false, a writer reads true. */
  lemma FlagTellsMode(s: State, t: nat)
    requires t < |s.th| && Inv(s) && s.th[t].pc.ReadFlag?
    ensures s.flag <==> s.th[t].mode.Writer?
  {
    assert t in ReadersOf(s.th) <==> s.th[t].mode.Reader?;
  }

  lemma StepKeepsInv(s: State, t: nat, a: Action)
    requires t < |s.th| && Inv(s) && Disciplined(s, t, a)
    ensures Inv(Step(s, t, a))
  {
    var me := s.th[t];
    if me.pc.Idle? {
      match a
      case CallTryRdLock => if CanShare(s.srw) { GrantShared(s, t); }
      case CallTryWrLock => if s.srw.Free? { GrantExclusive(s, t); }
      case CallRdLock => MoveKeepsInv(s, t, WantShared, s.flag);
      case CallWrLock => MoveKeepsInv(s, t, WantExcl, s.flag);
      case CallUnlock => MoveKeepsInv(s, t, ReadFlag, s.flag);
      case Continue =>
    } else if a.Continue? {
      match me.pc
      case Idle =>
      case WantShared => if CanShare(s.srw) { GrantShared(s, t); }
      case WantExcl => if s.srw.Free? { GrantExclusive(s, t); }
      case SetFlag => MoveKeepsInv(s, t, Idle, true);
      case ReadFlag =>
        FlagTellsMode(s, t);
        MoveKeepsInv(s, t, if s.flag then ClearFlag else RelShared, s.flag);
      case ClearFlag => MoveKeepsInv(s, t, RelExcl, false);
      case RelExcl => ReleaseIsRight(s, t); DropExclusive(s, t);
      case RelShared => DropShared(s, t);
    }
  }

  lemma {:induction false} RunKeepsInv(n: nat, run: seq<(nat, Action)>)
    requires ValidRun(n, run) && DisciplinedRun(n, run)
    ensures Inv(Run(n, run))
  {
    if run == [] {
      assert forall t: nat :: t !in ReadersOf(Init(n).th) && t !in WritersOf(Init(n).th);
      assert ReadersOf(Init(n).th) == {} && WritersOf(Init(n).th) == {};
    } else {
      RunKeepsInv(n, run[..|run| - 1]);
      StepKeepsInv(Run(n, run[..|run| - 1]), run[|run| - 1].0, run[|run| - 1].1);
    }
  }

  // ---------------------------------------------------------------------
  // Main results
  // ---------------------------------------------------------------------

  /** A writer excludes every other holder, in every reachable state. */
  lemma Exclusion(n: nat, run: seq<(nat, Action)>, i: nat, j: nat)
    requires ValidRun(n, run) && DisciplinedRun(n, run)
    requires i < n && j < n && i != j && Run(n, run).th[i].mode.Writer?
    ensures Run(n, run).th[j].mode.Unheld?
  {
    var s := Run(n, run);
    RunKeepsInv(n, run);
    assert s.th[j].mode.Writer? ==> WritersOf(s.th) == {j};
    assert s.th[j].mode.Reader? ==> j in ReadersOf(s.th);
    assert i in WritersOf(s.th);
  }

  /** The unlock call always takes the branch of its caller's mode, and never faults. */
  lemma UnlockTakesRightBranch(n: nat, run: seq<(nat, Action)>, t: nat)
    requires ValidRun(n, run) && DisciplinedRun(n, run) && t < n
    ensures var s := Run(n, run);
            && !s.fault
            && (s.th[t].pc.ReadFlag? ==> (s.flag <==> s.th[t].mode.Writer?))
            && (s.th[t].mode.Reader? ==> !s.flag)
            && (s.th[t].pc.RelShared? ==> s.th[t].mode.Reader? && s.srw.Shared? && s.srw.owners == |ReadersOf(s.th)|)
            && (s.th[t].pc.RelExcl? ==> s.th[t].mode.Writer? && s.srw.Exclusive?)
  {
    var s := Run(n, run);
    RunKeepsInv(n, run);
    ReleaseIsRight(s, t);
    if s.th[t].pc.ReadFlag? { FlagTellsMode(s, t); }
    assert s.th[t].mode.Reader? ==> t in ReadersOf(s.th);
  }

  /** What a step may do to the stepping thread's mode, and when; nobody else's mode changes. */
  lemma ModeMoves(s: State, t: nat, a: Action)
    requires t < |s.th| && Inv(s) && Disciplined(s, t, a)
    ensures var s' := Step(s, t, a);
            && |s'.th| == |s.th|
            && s'.th == s.th[t := s'.th[t]]
            && ModeMove(s.srw, s.th[t].mode, s'.th[t].mode)
  {
    assert s.th[t := s.th[t]] == s.th;
    ReleaseIsRight(s, t);
  }

  lemma InvIsSafe(s: State)
    requires Inv(s)
    ensures Abs(s).Safe()
  {
    if WritersOf(s.th) != {} {
      var w :| w in WritersOf(s.th);
      assert s.th[w].mode.Writer?;
    }
  }

  /** Every step is a step of the abstract lock by the same thread. */
  lemma RefinesAbstractLock(n: nat, run: seq<(nat, Action)>, t: nat, a: Action)
    requires ValidRun(n, run) && DisciplinedRun(n, run) && t < n && Disciplined(Run(n, run), t, a)
    ensures var s := Run(n, run); Abs(s).Safe() && AbstractStep(Abs(s), Abs(Step(s, t, a)), t)
  {
    RunKeepsInv(n, run);
    InvIsSafe(Run(n, run));
    StepRefines(Run(n, run), t, a);
  }

  /** The mode changes a step may make, with the slim lock in state `srw`. */
  predicate ModeMove(srw: Srw, m: Mode, m': Mode) {
    || m' == m
    || (m.Unheld? && m'.Reader? && !srw.Exclusive?)
    || (m.Unheld? && m'.Writer? && srw.Free?)
    || (!m.Unheld? && m'.Unheld?)
  }

  lemma HoldersMove(s: State, t: nat, me: Thread)
    requires t < |s.th| && Inv(s) && ModeMove(s.srw, s.th[t].mode, me.mode)
    ensures AbstractStep(Abs(s), Abs(s.(th := s.th[t := me])), t)
  {
    ModeChange(s.th, t, me);
    assert t in ReadersOf(s.th) <==> s.th[t].mode.Reader?;
    assert t in WritersOf(s.th) <==> s.th[t].mode.Writer?;
    if me.mode == s.th[t].mode { SameModeSameHolders(s, t, me.pc); }
  }

  lemma StepRefines(s: State, t: nat, a: Action)
    requires t < |s.th| && Inv(s) && Disciplined(s, t, a)
    ensures AbstractStep(Abs(s), Abs(Step(s, t, a)), t)
  {
    var s' := Step(s, t, a);
    ModeMoves(s, t, a);
    HoldersMove(s, t, s'.th[t]);
    assert Abs(s') == Abs(s.(th := s'.th));
  }

  /** The slim lock's word says who holds the lock. */
  lemma WordTellsHolders(s: State)
    requires Inv(s)
    ensures CanShare(s.srw) <==> Abs(s).writers == {}
    ensures s.srw.Free? <==> Abs(s).readers == {} && Abs(s).writers == {}
  {
  }

  /** What a try call does, in terms of the holders: a shared one succeeds exactly without a writer, an exclusive one
      exactly without a holder; the caller then holds the lock in that mode, and otherwise nothing has changed. */
  lemma TryCallsExactly(n: nat, run: seq<(nat, Action)>, t: nat)
    requires ValidRun(n, run) && DisciplinedRun(n, run) && t < n && Run(n, run).th[t] == Thread(Idle, Unheld)
    ensures var s := Run(n, run);
            var s' := Step(s, t, CallTryRdLock);
            if Abs(s).writers == {}
            then s'.th == s.th[t := Thread(Idle, Reader)] && Abs(s') == Holders(Abs(s).readers + {t}, {})
            else s' == s
    ensures var s := Run(n, run);
            var s' := Step(s, t, CallTryWrLock);
            if Abs(s).writers == {} && Abs(s).readers == {}
            then s'.th == s.th[t := Thread(SetFlag, Writer)] && Abs(s') == Holders({}, {t})
            else s' == s
  {
    var s := Run(n, run);
    RunKeepsInv(n, run);
    WordTellsHolders(s);
    ModeChange(s.th, t, Thread(Idle, Reader));
    ModeChange(s.th, t, Thread(SetFlag, Writer));
  }

  /** What a step inside a blocking call does: it waits as long as a writer, or any holder, is there, and then takes the
      lock in the mode of the call. A writer returns one step later, with the flag set. */
  lemma BlockingCallsExactly(n: nat, run: seq<(nat, Action)>, t: nat)
    requires ValidRun(n, run) && DisciplinedRun(n, run) && t < n
    ensures var s := Run(n, run);
            var s' := Step(s, t, Continue);
            && (s.th[t].pc.WantShared? ==>
                  if Abs(s).writers == {}
                  then s'.th == s.th[t := Thread(Idle, Reader)] && Abs(s') == Holders(Abs(s).readers + {t}, {})
                  else s' == s)
            && (s.th[t].pc.WantExcl? ==>
                  if Abs(s).writers == {} && Abs(s).readers == {}
                  then s'.th == s.th[t := Thread(SetFlag, Writer)] && Abs(s') == Holders({}, {t})
                  else s' == s)
            && (s.th[t].pc.SetFlag? ==> s'.th == s.th[t := Thread(Idle, Writer)] && s'.flag && Abs(s') == Abs(s))
  {
    var s := Run(n, run);
    RunKeepsInv(n, run);
    WordTellsHolders(s);
    ModeChange(s.th, t, Thread(Idle, Reader));
    ModeChange(s.th, t, Thread(SetFlag, Writer));
    if s.th[t].pc.SetFlag? {
      assert ThreadOk(s.th[t]);
      SameModeSameHolders(s, t, Idle);
    }
  }

  /** The call that thread `t` made last. */
  function LastCall(n: nat, run: seq<(nat, Action)>, t: nat): Action
    requires ValidRun(n, run) && t < n
  {
    if run == [] then Continue
    else
      var (u, a) := run[|run| - 1];
      if u == t && !a.Continue? && Run(n, run[..|run| - 1]).th[t].pc.Idle? then a
      else LastCall(n, run[..|run| - 1], t)
  }

  /** A thread that has left a blocking call holds the lock in its mode, one that has left a try call holds it in
      that mode or not at all, and one that has left unlock holds nothing. */
  predicate Kept(call: Action, me: Thread) {
    match call
    case CallRdLock => if me.pc.Idle? then me.mode.Reader? else me.pc.WantShared?
    case CallTryRdLock => me.pc.Idle? && !me.mode.Writer?
    case CallWrLock => if me.pc.Idle? then me.mode.Writer? else me.pc.WantExcl? || me.pc.SetFlag?
    case CallTryWrLock => if me.pc.Idle? then !me.mode.Reader? else me.pc.SetFlag?
    case CallUnlock =>
      if me.pc.Idle? then me.mode.Unheld?
      else me.pc.ReadFlag? || me.pc.ClearFlag? || me.pc.RelExcl? || me.pc.RelShared?
    case Continue => me == Thread(Idle, Unheld)
  }

  lemma {:induction false} CallsKeepPromise(n: nat, run: seq<(nat, Action)>, t: nat)
    requires ValidRun(n, run) && DisciplinedRun(n, run) && t < n
    ensures Kept(LastCall(n, run, t), Run(n, run).th[t])
  {
    if run != [] {
      var before, u, a := run[..|run| - 1], run[|run| - 1].0, run[|run| - 1].1;
      CallsKeepPromise(n, before, t);
      RunKeepsInv(n, before);
      ModeMoves(Run(n, before), u, a);
      if u == t {
        assert ThreadOk(Run(n, before).th[t]);
        ReleaseIsRight(Run(n, before), t);
      }
    }
  }

  /** A whole unlock call of `t` with no other step in between. */
  function UnlockAlone(s: State, t: nat): State
    requires t < |s.th|
  {
    Step(Step(Step(Step(s, t, CallUnlock), t, Continue), t, Continue), t, Continue)
  }

  lemma UnlockByHolder(s: State, t: nat)
    requires t < |s.th| && Inv(s) && s.th[t].pc.Idle? && !s.th[t].mode.Unheld?
    ensures Inv(UnlockAlone(s, t)) && !UnlockAlone(s, t).flag
    ensures UnlockAlone(s, t).th == s.th[t := Thread(Idle, Unheld)]
  {
    var s1 := Step(s, t, CallUnlock);
    var s2 := Step(s1, t, Continue);
    var s3 := Step(s2, t, Continue);
    StepKeepsInv(s, t, CallUnlock);
    FlagTellsMode(s1, t);
    StepKeepsInv(s1, t, Continue);
    ReleaseIsRight(s2, t);
    StepKeepsInv(s2, t, Continue);
    ReleaseIsRight(s3, t);
    StepKeepsInv(s3, t, Continue);
  }

  lemma UnlockByStranger(s: State, t: nat)
    requires t < |s.th| && Inv(s) && s.th[t] == Thread(Idle, Unheld)
    ensures !Inv(UnlockAlone(s, t))
  {
    var s4 := UnlockAlone(s, t);
    if !s4.fault {
      assert s4.th == s.th;
    }
  }

  /** Unlocking keeps the lock sound exactly when the caller holds it; it then gives up the caller's hold only. */
  lemma UnlockExactly(s: State, t: nat)
    requires t < |s.th| && Inv(s) && s.th[t].pc.Idle?
    ensures Inv(UnlockAlone(s, t)) <==> !s.th[t].mode.Unheld?
    ensures !s.th[t].mode.Unheld? ==> UnlockAlone(s, t).th == s.th[t := Thread(Idle, Unheld)]
  {
    if s.th[t].mode.Unheld? { UnlockByStranger(s, t); } else { UnlockByHolder(s, t); }
  }

  /** Where a blocking call would not wait, the try call does the same. */
  lemma TryIsBlocking(s: State, t: nat)
    requires t < |s.th| && s.th[t].pc.Idle?
    ensures CanShare(s.srw) ==> Step(s, t, CallTryRdLock) == Step(Step(s, t, CallRdLock), t, Continue)
    ensures s.srw.Free? ==> Step(s, t, CallTryWrLock) == Step(Step(s, t, CallWrLock), t, Continue)
  {
  }

  /** A read lock, or write lock, blocking or not, followed by unlock restores the state it started from. */
  lemma LockThenUnlock(s: State, t: nat)
    requires t < |s.th| && Inv(s) && s.th[t] == Thread(Idle, Unheld)
    ensures CanShare(s.srw) ==> UnlockAlone(Step(Step(s, t, CallRdLock), t, Continue), t) == s
    ensures s.srw.Free? ==>
              UnlockAlone(Step(Step(Step(s, t, CallWrLock), t, Continue), t, Continue), t) == s
    ensures CanShare(s.srw) ==> UnlockAlone(Step(s, t, CallTryRdLock), t) == s
    ensures s.srw.Free? ==> UnlockAlone(Step(Step(s, t, CallTryWrLock), t, Continue), t) == s
  {
    TryIsBlocking(s, t);
    assert s.th[t := Thread(Idle, Unheld)] == s.th;
    if CanShare(s.srw) {
      var r := Step(Step(s, t, CallRdLock), t, Continue);
      assert r == Put(s, t, Idle, Reader).(srw := AcquireShared(s.srw));
      GrantShared(s, t);
      UnlockByHolder(r, t);
      assert r.th[t := Thread(Idle, Unheld)] == s.th;
    }
    if s.srw.Free? {
      var w := Step(Step(Step(s, t, CallWrLock), t, Continue), t, Continue);
      assert w.th == s.th[t := Thread(Idle, Writer)] && w.flag && w.srw == Exclusive;
      var u := UnlockAlone(w, t);
      assert u.th == w.th[t := Thread(Idle, Unheld)];
      assert w.th[t := Thread(Idle, Unheld)] == s.th;
    }
  }
}

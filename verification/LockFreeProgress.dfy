/**
 The stack is lock-free: a thread that is left alone finishes its call within
 eight steps, whatever the others have left behind; a compare-and-swap fails only
 because another thread's has succeeded; and threads cannot keep each other busy
 without one of them getting its operation done.
 */
module LockFreeProgress {
  import opened LockFreeStack

  /** This thread's next step is a compare-and-swap that succeeds. */
  predicate Swaps(m: nat, s: State, t: nat)
    requires m > 0 && t < |s.th|
  {
    AtCas(s.th[t].pc) && SameWord(m, s.top, s.th[t].copy)
  }

  // ---------------------------------------------------------------------
  // A thread alone
  // ---------------------------------------------------------------------

  /** How many steps a thread's call still takes if nobody changes the word. */
  function Rank(m: nat, top: Word, me: Thread): (r: nat)
    requires m > 0
    ensures r <= 8 && (r == 0 <==> me.pc.Idle?)
  {
    var same := SameWord(m, top, me.copy);
    match me.pc
    case Idle => 0
    case PushInit => 6
    case PushDraw => 5
    case PushRead => 4
    case PushLink => if same then 3 else 6
    case PushCas => if same then 2 else 5
    case PushCount => 1
    case PopDraw => if top.addr == 0 then 2 else 7
    case PopRead => if top.addr == 0 then 1 else 6
    case PopNext => if same then 5 else if top.addr == 0 then 3 else 8
    case PopCas => if same then 4 else if top.addr == 0 then 2 else 7
    case PopCount => 3
    case PopData => 2
    case PopFree => 1
  }

  lemma PushStepLowersRank(m: nat, s: State, t: nat)
    requires m > 0 && t < |s.th| && (Pushing(s.th[t].pc) || s.th[t].pc.PushCount?)
    ensures var s' := Step(m, s, t, Continue);
            |s'.th| == |s.th| && Rank(m, s'.top, s'.th[t]) == Rank(m, s.top, s.th[t]) - 1
  {
  }

  lemma PopStepLowersRank(m: nat, s: State, t: nat)
    requires m > 0 && t < |s.th| && Popping(s.th[t].pc)
    ensures var s' := Step(m, s, t, Continue);
            |s'.th| == |s.th| && Rank(m, s'.top, s'.th[t]) == Rank(m, s.top, s.th[t]) - 1
  {
  }

  lemma OwnStepLowersRank(m: nat, s: State, t: nat)
    requires m > 0 && t < |s.th| && !s.th[t].pc.Idle?
    ensures var s' := Step(m, s, t, Continue);
            |s'.th| == |s.th| && Rank(m, s'.top, s'.th[t]) == Rank(m, s.top, s.th[t]) - 1
  {
    if Pushing(s.th[t].pc) || s.th[t].pc.PushCount? {
      PushStepLowersRank(m, s, t);
    } else if Popping(s.th[t].pc) {
      PopStepLowersRank(m, s, t);
    }
  }

  /** `k` steps of thread `t` with nobody else moving. */
  function Alone(m: nat, s: State, t: nat, k: nat): (s': State)
    requires m > 0 && t < |s.th|
    ensures |s'.th| == |s.th|
    decreases k
  {
    if k == 0 then s
    else
      StepTouchesOne(m, s, t, Continue);
      Alone(m, Step(m, s, t, Continue), t, k - 1)
  }

  /** Alone, from whatever state, a thread has returned after exactly `Rank` steps, at most eight. */
  lemma {:induction false} AloneReturns(m: nat, s: State, t: nat, k: nat)
    requires m > 0 && t < |s.th|
    ensures Alone(m, s, t, k).th[t].pc.Idle? <==> k >= Rank(m, s.top, s.th[t])
    ensures k >= 8 ==> Alone(m, s, t, k).th[t].pc.Idle?
    decreases k
  {
    if k > 0 {
      var s1 := Step(m, s, t, Continue);
      StepTouchesOne(m, s, t, Continue);
      AloneReturns(m, s1, t, k - 1);
      if s.th[t].pc.Idle? {
        assert s1.th[t].pc.Idle?;
      } else {
        OwnStepLowersRank(m, s, t);
      }
    }
  }

  /** What the call of thread `t` has done when `s` has become `s'`. */
  predicate CallDone(s: State, s': State, t: nat)
    requires t < |s.th| == |s'.th|
  {
    var me := s.th[t];
    && s'.th[t].pc.Idle?
    && (Pushing(me.pc) ==> s'.spec == [Item(me.node, me.val)] + s.spec && s'.count == s.count + 1)
    && (Popping(me.pc) && s.spec == [] ==> s'.spec == [] && s'.count == s.count && s'.live == s.live)
    && (Popping(me.pc) && s.spec != [] ==>
          && s'.spec == s.spec[1..] && s'.count == s.count - 1 && s'.live == s.live - {s.spec[0].addr}
          && s'.th[t].val == s.spec[0].val)
    && (!Pushing(me.pc) && !Popping(me.pc) ==> s'.spec == s.spec)
    && (me.pc.PopCount? || me.pc.PopData? || me.pc.PopFree? ==> s'.th[t].val == me.val)
  }

  lemma {:induction false} IdleStays(m: nat, s: State, t: nat, k: nat)
    requires m > 0 && t < |s.th| && s.th[t].pc.Idle?
    ensures Alone(m, s, t, k) == s
    decreases k
  {
    if k > 0 { IdleStays(m, s, t, k - 1); }
  }

  lemma AfterOne(m: nat, s: State, t: nat, k: nat)
    requires m > 0 && t < |s.th| && k > 0
    ensures |Step(m, s, t, Continue).th| == |s.th|
    ensures Alone(m, s, t, k) == Alone(m, Step(m, s, t, Continue), t, k - 1)
  {
    StepTouchesOne(m, s, t, Continue);
  }

  /** A step that does not swap the word leaves the rest of the call to do what it would have done. */
  lemma QuietStep(m: nat, s: State, t: nat, s': State)
    requires m > 0 && t < |s.th| && Linked(s) && ThreadInv(s, s.th[t]) && !s.th[t].pc.Idle? && !Swaps(m, s, t)
    requires |s'.th| == |s.th| == |Step(m, s, t, Continue).th| && CallDone(Step(m, s, t, Continue), s', t)
    requires Step(m, s, t, Continue).th[t].pc.Idle? ==> s' == Step(m, s, t, Continue)
    ensures CallDone(s, s', t)
  {
    StepTouchesOne(m, s, t, Continue);
  }

  /** The end of a push that has swapped the word. */
  lemma PushSwap(m: nat, s: State, t: nat, k: nat)
    requires m > 0 && t < |s.th| && s.th[t].pc.PushCas? && Swaps(m, s, t) && k >= 2
    ensures CallDone(s, Alone(m, s, t, k), t)
  {
    var s1 := Step(m, s, t, Continue);
    AfterOne(m, s, t, k);
    AfterOne(m, s1, t, k - 1);
    IdleStays(m, Step(m, s1, t, Continue), t, k - 2);
  }

  /** The end of a pop that has swapped the word: it counts, takes the data and frees the node. */
  lemma PopTail(m: nat, s: State, t: nat, k: nat)
    requires m > 0 && t < |s.th| && s.th[t].pc.PopCount? && k >= 3
    ensures var me, s' := s.th[t], Alone(m, s, t, k);
            && s'.th[t].pc.Idle? && s'.spec == s.spec && s'.count == s.count - 1 && s'.live == s.live - {me.node}
            && s'.th[t].val == DataOf(s.heap, me.node)
  {
    var s1 := Step(m, s, t, Continue);
    AfterOne(m, s, t, k);
    assert s1.th[t] == s.th[t].(pc := PopData) && s1 == s.(count := s.count - 1, th := s1.th);
    var s2 := Step(m, s1, t, Continue);
    AfterOne(m, s1, t, k - 1);
    assert s2.th[t] == s.th[t].(pc := PopFree, val := DataOf(s.heap, s.th[t].node)) && s2 == s1.(th := s2.th);
    AfterOne(m, s2, t, k - 2);
    IdleStays(m, Step(m, s2, t, Continue), t, k - 3);
  }

  lemma PopSwap(m: nat, s: State, t: nat, k: nat)
    requires m > 0 && t < |s.th| && Inv(s) && s.th[t].pc.PopCas? && Swaps(m, s, t) && k >= 4
    ensures CallDone(s, Alone(m, s, t, k), t)
  {
    var s1 := SwapOut(m, s, t);
    AfterOne(m, s, t, k);
    PopTail(m, s1, t, k - 1);
  }

  /** The compare-and-swap of a pop: the top item leaves the stack. */
  lemma SwapOut(m: nat, s: State, t: nat) returns (s1: State)
    requires m > 0 && t < |s.th| && Inv(s) && s.th[t].pc.PopCas? && Swaps(m, s, t)
    ensures s1 == Step(m, s, t, Continue) && |s1.th| == |s.th|
    ensures s.spec != [] && s1.spec == s.spec[1..] && s1.count == s.count && s1.live == s.live
    ensures s1.th[t].pc.PopCount? && s1.th[t].node == s.spec[0].addr
    ensures DataOf(s1.heap, s.spec[0].addr) == s.spec[0].val
  {
    s1 := Step(m, s, t, Continue);
    PopTakesEffect(m, s, t, Continue);
  }

  lemma {:induction false} AloneDoes(m: nat, s: State, t: nat, k: nat)
    requires m > 0 && t < |s.th| && Inv(s) && k >= Rank(m, s.top, s.th[t])
    ensures CallDone(s, Alone(m, s, t, k), t)
    decreases k
  {
    assert ThreadInv(s, s.th[t]);
    if s.th[t].pc.Idle? {
      IdleStays(m, s, t, k);
    } else if Swaps(m, s, t) {
      if s.th[t].pc.PushCas? { PushSwap(m, s, t, k); } else { PopSwap(m, s, t, k); }
    } else {
      var s1 := Step(m, s, t, Continue);
      AfterOne(m, s, t, k);
      OwnStepLowersRank(m, s, t);
      StepKeepsInv(m, s, t, Continue);
      AloneDoes(m, s1, t, k - 1);
      if s1.th[t].pc.Idle? { IdleStays(m, s1, t, k - 1); }
      QuietStep(m, s, t, Alone(m, s1, t, k - 1));
    }
  }

  /** From every reachable state: alone, a call has returned after eight steps, and a pending push has put exactly its
      item on the stack, a pending pop has taken exactly the top item, with its value, or found the stack empty. */
  lemma AloneFinishes(m: nat, n: nat, run: Schedule, t: nat)
    requires m > 0 && ValidRun(n, run) && CurrentRun(m, n, run) && t < n
    ensures CallDone(Run(m, n, run), Alone(m, Run(m, n, run), t, 8), t)
  {
    RunKeepsInv(m, n, run);
    AloneDoes(m, Run(m, n, run), t, 8);
  }

  // ---------------------------------------------------------------------
  // Why a compare-and-swap fails
  // ---------------------------------------------------------------------

  predicate Reads(pc: Pc) { pc.PushRead? || pc.PopRead? }

  /** The number of steps up to and with the one in which thread `t` read the word last; 0 if it never has. */
  function LastRead(m: nat, n: nat, run: Schedule, t: nat): (k: nat)
    requires m > 0 && ValidRun(n, run) && t < n
    ensures k <= |run|
  {
    if run == [] then 0
    else if run[|run| - 1].0 == t && Reads(Run(m, n, run[..|run| - 1]).th[t].pc) then |run|
    else LastRead(m, n, run[..|run| - 1], t)
  }

  /** Step `i` is another thread's compare-and-swap, and it succeeds. */
  predicate OtherSwapsAt(m: nat, n: nat, run: Schedule, t: nat, i: nat)
    requires m > 0 && ValidRun(n, run) && i < |run|
  {
    run[i].0 != t && Swaps(m, Run(m, n, run[..i]), run[i].0)
  }

  lemma WordChangesBySwap(m: nat, s: State, u: nat, a: Action)
    requires m > 0 && u < |s.th| && !Swaps(m, s, u)
    ensures Step(m, s, u, a).top == s.top
  {
  }

  lemma CopyIsKept(m: nat, s: State, t: nat, a: Action)
    requires m > 0 && t < |s.th|
    ensures var s' := Step(m, s, t, a);
            && |s'.th| == |s.th|
            && (HasCopy(s'.th[t].pc) ==>
                  if Reads(s.th[t].pc) then s'.th[t].copy == s.top && s'.top == s.top
                  else HasCopy(s.th[t].pc) && s'.th[t].copy == s.th[t].copy && !Swaps(m, s, t))
  {
    StepTouchesOne(m, s, t, a);
  }

  /** A thread's copy is the word itself, unless another thread has swapped the word since it was read. */
  lemma {:induction false} CopyIsWordOrSwapped(m: nat, n: nat, run: Schedule, t: nat)
    requires m > 0 && ValidRun(n, run) && t < n && HasCopy(Run(m, n, run).th[t].pc)
    ensures LastRead(m, n, run, t) > 0
    ensures var s := Run(m, n, run);
            s.th[t].copy == s.top
            || exists i :: LastRead(m, n, run, t) <= i < |run| && OtherSwapsAt(m, n, run, t, i)
  {
    if run != [] {
      var before, u, a := run[..|run| - 1], run[|run| - 1].0, run[|run| - 1].1;
      var s := Run(m, n, before);
      StepTouchesOne(m, s, u, a);
      if u == t { CopyIsKept(m, s, t, a); }
      if !(u == t && Reads(s.th[t].pc)) {
        CopyIsWordOrSwapped(m, n, before, t);
        assert LastRead(m, n, run, t) == LastRead(m, n, before, t);
        if s.th[t].copy == s.top {
          if u != t && Swaps(m, s, u) {
            assert OtherSwapsAt(m, n, run, t, |before|);
          } else {
            WordChangesBySwap(m, s, u, a);
          }
        } else {
          var i :| LastRead(m, n, before, t) <= i < |before| && OtherSwapsAt(m, n, before, t, i);
          assert run[..i] == before[..i];
          assert OtherSwapsAt(m, n, run, t, i);
        }
      }
    }
  }

  /** A compare-and-swap fails only if, since the thread last read the word, another thread's has succeeded. */
  lemma FailsOnlyBySwap(m: nat, n: nat, run: Schedule, t: nat) returns (i: nat)
    requires m > 0 && ValidRun(n, run) && t < n
    requires AtCas(Run(m, n, run).th[t].pc) && !Swaps(m, Run(m, n, run), t)
    ensures 0 < LastRead(m, n, run, t) <= i < |run| && OtherSwapsAt(m, n, run, t, i)
  {
    CopyIsWordOrSwapped(m, n, run, t);
    i :| LastRead(m, n, run, t) <= i < |run| && OtherSwapsAt(m, n, run, t, i);
  }

  // ---------------------------------------------------------------------
  // Lock-freedom
  // ---------------------------------------------------------------------

  function RankSum(m: nat, top: Word, th: seq<Thread>): nat
    requires m > 0
  {
    if th == [] then 0 else Rank(m, top, th[0]) + RankSum(m, top, th[1..])
  }

  lemma {:induction false} RankSumAfterPut(m: nat, top: Word, th: seq<Thread>, t: nat, me: Thread)
    requires m > 0 && t < |th|
    ensures RankSum(m, top, th[t := me]) == RankSum(m, top, th) - Rank(m, top, th[t]) + Rank(m, top, me)
  {
    if t == 0 {
      assert th[t := me][1..] == th[1..];
    } else {
      assert th[t := me][1..] == th[1..][t - 1 := me];
      RankSumAfterPut(m, top, th[1..], t - 1, me);
    }
  }

  lemma {:induction false} RankSumBound(m: nat, top: Word, th: seq<Thread>)
    requires m > 0
    ensures RankSum(m, top, th) <= 8 * |th|
  {
    if th != [] { RankSumBound(m, top, th[1..]); }
  }

  /** From step `from` on, only threads inside a call move, and none swaps the word. */
  predicate Fruitless(m: nat, n: nat, run: Schedule, from: nat)
    requires m > 0 && ValidRun(n, run)
  {
    forall k :: from <= k < |run| ==>
      var s := Run(m, n, run[..k]); !s.th[run[k].0].pc.Idle? && !Swaps(m, s, run[k].0)
  }

  lemma {:induction false} FruitlessLowersRanks(m: nat, n: nat, run: Schedule, from: nat)
    requires m > 0 && ValidRun(n, run) && from <= |run| && Fruitless(m, n, run, from)
    ensures var s0, s := Run(m, n, run[..from]), Run(m, n, run);
            s.top == s0.top && RankSum(m, s.top, s.th) + (|run| - from) == RankSum(m, s0.top, s0.th)
  {
    if |run| == from {
      assert run[..from] == run;
    } else {
      var before, t, a := run[..|run| - 1], run[|run| - 1].0, run[|run| - 1].1;
      var s := Run(m, n, before);
      assert before[..from] == run[..from];
      forall k | from <= k < |before|
        ensures !Run(m, n, before[..k]).th[before[k].0].pc.Idle? && !Swaps(m, Run(m, n, before[..k]), before[k].0)
      {
        assert before[..k] == run[..k];
      }
      FruitlessLowersRanks(m, n, before, from);
      assert Step(m, s, t, a) == Step(m, s, t, Continue);
      WordChangesBySwap(m, s, t, a);
      OwnStepLowersRank(m, s, t);
      StepTouchesOne(m, s, t, a);
      RankSumAfterPut(m, s.top, s.th, t, Run(m, n, run).th[t]);
    }
  }

  /** Among any 8n + 1 steps of threads inside calls, one is a compare-and-swap that succeeds: something gets done. */
  lemma SomeoneSucceeds(m: nat, n: nat, run: Schedule, from: nat)
    requires m > 0 && ValidRun(n, run) && from <= |run| && Fruitless(m, n, run, from)
    ensures |run| - from <= 8 * n
  {
    FruitlessLowersRanks(m, n, run, from);
    RankSumBound(m, Run(m, n, run[..from]).top, Run(m, n, run[..from]).th);
  }
}

/**
 The test program runs for ever, so the serial numbers come round. With two or
 more threads there is then a run in which a value is lost, a later pop finds the
 stack empty, and the node count passes the number of threads.
 */
module LockFreeAlarm {
  import opened Modular
  import opened LockFreeStack
  import opened LockFreeMonitor
  import opened LockFreeMoves

  /** The threads from `j` on have not begun. */
  predicate Waiting(s: State, j: nat) { forall u :: j <= u < |s.th| ==> s.th[u] == NewThread() }

  predicate Resting(s: State, t: nat, odd: bool) {
    t < |s.th| && s.th[t].pc.Idle? && Odd(s.th[t]) == odd
  }

  /** `p` times a push and a pop of node 2, which leave the stack empty. */
  lemma {:induction false} Pairs(m: nat, n: nat, run0: Schedule, s0: State, p: nat) returns (run: Schedule, s: State)
    requires Reached(m, n, true, run0, s0) && n >= 2 && Resting(s0, 1, false)
    requires s0.top.addr == 0 && s0.spec == [] && 2 !in s0.live
    ensures Reached(m, n, true, run, s) && Only(s0, s, 1) && Resting(s, 1, false)
    ensures s.unique == s0.unique + 2 * p && s.top.addr == 0 && s.spec == []
    ensures s.live == s0.live && s.count == s0.count
  {
    run, s := run0, s0;
    if p > 0 {
      run, s := Pairs(m, n, run0, s0, p - 1);
      run, s := PushAlone(m, n, true, run, s, 1, 2, 20);
      run, s := PopAlone(m, n, true, run, s, 1);
    }
  }

  /** Thread 0 has drawn number 1 for node 1 and pushed it late, on top of node 2. */
  lemma PushLate(m: nat, n: nat, p: nat) returns (run: Schedule, s: State)
    requires m > 0 && n >= 2
    ensures Reached(m, n, true, run, s) && Resting(s, 0, true) && Resting(s, 1, true) && Waiting(s, 2)
    ensures s.unique == 2 * p + 2 && s.top == Word(1, 1) && s.live == {1, 2} && s.count == 2
    ensures |s.spec| == 2 && NextOf(s.heap, 1) == 2
  {
    run, s := [], Init(n);
    run, s := StartPush(m, n, true, run, s, 0, 1, 10);
    run, s := DrawNumber(m, n, true, run, s, 0);
    run, s := Pairs(m, n, run, s, p);
    run, s := PushAlone(m, n, true, run, s, 1, 2, 20);
    run, s := EndPush(m, n, true, run, s, 0);
  }

  /** Thread 0's pop copies the word; thread 1 pops node 1 and clears it for its next push,
      and only then does thread 0 read its successor. */
  lemma ReadCleared(m: nat, n: nat, p: nat) returns (run: Schedule, s: State)
    requires m > 0 && n >= 2
    ensures Reached(m, n, true, run, s) && Waiting(s, 2)
    ensures s.th[0].pc.PopCas? && s.th[0].copy == Word(1, 1) && s.th[0].next == 0 && !Odd(s.th[0])
    ensures s.th[1].pc.PushDraw? && s.th[1].node == 1 && Odd(s.th[1])
    ensures s.unique == 2 * p + 4 && s.live == {1, 2} && s.count == 1 && |s.spec| == 1
  {
    run, s := PushLate(m, n, p);
    run, s := StartPop(m, n, true, run, s, 0);
    run, s := PopAlone(m, n, true, run, s, 1);
    run, s := StartPush(m, n, true, run, s, 1, 1, 30);
    run, s := ReadNext(m, n, true, run, s, 0);
  }

  /** Thread 1's push brings node 1 back on top. */
  lemma PushAgain(m: nat, n: nat, p: nat) returns (run: Schedule, s: State)
    requires m > 0 && n >= 2
    ensures Reached(m, n, true, run, s) && Waiting(s, 2) && Resting(s, 1, true)
    ensures s.th[0].pc.PopCas? && s.th[0].copy == Word(1, 1) && s.th[0].next == 0 && !Odd(s.th[0])
    ensures s.top == Word(2 * p + 5, 1) && s.live == {1, 2} && s.count == 2
  {
    run, s := ReadCleared(m, n, p);
    run, s := DrawNumber(m, n, true, run, s, 1);
    run, s := EndPush(m, n, true, run, s, 1);
  }

  lemma TagComesRound(m: nat)
    requires m > 0
    ensures SameWord(m, Word(2 * (2 * m - 2) + 5, 1), Word(1, 1))
  {
    ModUnique(4 * m + 1, m, 4 + 1 / m, 1 % m);
  }

  /** If its number has the tag of the word that thread 0 copied, thread 0's pop empties the linked list. */
  lemma LosesNode(m: nat, n: nat) returns (run: Schedule, s: State)
    requires m > 0 && n >= 2
    ensures Reached(m, n, true, run, s) && Waiting(s, 2)
    ensures Resting(s, 0, false) && Resting(s, 1, true)
    ensures s.top.addr == 0 && s.live == {2} && s.count == 1
  {
    run, s := PushAgain(m, n, 2 * m - 2);
    TagComesRound(m);
    run, s := EndPop(m, n, true, run, s, 0);
  }

  /** The threads that have not begun push once each. */
  lemma {:induction false} OthersPush(m: nat, n: nat, run0: Schedule, s0: State, j: nat)
    returns (run: Schedule, s: State)
    requires Reached(m, n, true, run0, s0) && j <= n && Waiting(s0, j) && forall a :: a in s0.live ==> a < j + 2
    ensures Reached(m, n, true, run, s) && s.count == s0.count + n - j
    decreases n - j
  {
    run, s := run0, s0;
    if j < n {
      run, s := PushAlone(m, n, true, run, s, j, j + 2, 50);
      run, s := OthersPush(m, n, run, s, j + 1);
    }
  }

  /** Thread 1's pop finds the word null; then every thread pushes, and the count is one too many. */
  lemma AlarmGoesOff(m: nat, n: nat) returns (run: Schedule)
    requires m > 0 && n >= 2
    ensures ValidRun(n, run) && TestRun(m, n, run) && Run(m, n, run).count == n + 1
  {
    var s: State;
    run, s := LosesNode(m, n);
    run, s := PopNothing(m, n, true, run, s, 1);
    run, s := PushAlone(m, n, true, run, s, 1, 1, 30);
    run, s := PushAlone(m, n, true, run, s, 0, 3, 40);
    run, s := OthersPush(m, n, run, s, 2);
  }

  /** The monitor is quiet in all runs of the test program if and only if there is no second thread. */
  lemma MonitorExactly(m: nat, n: nat)
    requires m > 0
    ensures (forall run | ValidRun(n, run) && TestRun(m, n, run) :: 0 <= Run(m, n, run).count <= n) <==> n <= 1
  {
    if n <= 1 {
      forall run | ValidRun(n, run) && TestRun(m, n, run) ensures 0 <= Run(m, n, run).count <= n {
        MonitorInLimit(m, n, run);
      }
    } else {
      var run := AlarmGoesOff(m, n);
    }
  }
}

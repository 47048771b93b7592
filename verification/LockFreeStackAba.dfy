/**
 How many serial numbers the stack survives. A thread that sleeps between its
 read and its compare-and-swap while the numbers come round loses a value or
 puts a node that is back in the pool on top of the stack.
 */
module LockFreeStackAba {
  import opened Modular
  import opened LockFreeStack
  import opened LockFreeMoves

  /** Pops of the empty stack only draw numbers. */
  lemma {:induction false} EmptyPops(m: nat, n: nat, run0: Schedule, s0: State, t: nat, k: nat)
    returns (run: Schedule, s: State)
    requires Reached(m, n, false, run0, s0) && t < n && s0.th[t].pc.Idle? && s0.top.addr == 0
    ensures Reached(m, n, false, run, s) && Only(s0, s, t) && s.th[t].pc.Idle?
    ensures s == s0.(unique := s0.unique + k, th := s.th)
  {
    run, s := run0, s0;
    if k > 0 {
      run, s := EmptyPops(m, n, run0, s0, t, k - 1);
      run, s := PopNothing(m, n, false, run, s, t);
    }
  }

  /** Thread 0 pops, up to its compare-and-swap. */
  lemma FallAsleep(m: nat, n: nat, run0: Schedule, s0: State) returns (run: Schedule, s: State)
    requires Reached(m, n, false, run0, s0) && n > 0 && s0.th[0].pc.Idle? && s0.top.addr != 0
    ensures Reached(m, n, false, run, s) && Only(s0, s, 0) && s.th[0].pc.PopCas?
    ensures s.th[0].copy == s0.top && s.th[0].next == NextOf(s0.heap, s0.top.addr)
    ensures s == s0.(unique := s0.unique + 1, th := s.th)
  {
    run, s := StartPop(m, n, false, run0, s0, 0);
    run, s := ReadNext(m, n, false, run, s, 0);
  }

  // ---------------------------------------------------------------------
  // A node of the pool on top, for every number of tag values
  // ---------------------------------------------------------------------

  /** The sleeping thread has read the word (2, node 1) and node 1's successor, node 2. */
  lemma Sleep(m: nat, n: nat) returns (run: Schedule, s: State)
    requires m > 0 && n >= 2
    ensures Reached(m, n, false, run, s) && s.th[1].pc.Idle?
    ensures s.th[0].pc.PopCas? && s.th[0].copy == Word(2, 1) && s.th[0].next == 2
    ensures s.unique == 3 && s.top == Word(2, 1) && s.live == {1, 2} && |s.spec| == 2
    ensures NextOf(s.heap, 1) == 2 && NextOf(s.heap, 2) == 0
  {
    run, s := [], Init(n);
    run, s := PushAlone(m, n, false, run, s, 1, 2, 20);
    run, s := PushAlone(m, n, false, run, s, 1, 1, 10);
    run, s := FallAsleep(m, n, run, s);
  }

  /** Meanwhile both nodes are popped, 4m - 4 empty pops draw numbers, and node 1 is pushed again. */
  lemma ComeRound(m: nat, n: nat) returns (run: Schedule, s: State)
    requires m > 0 && n >= 2
    ensures Reached(m, n, false, run, s)
    ensures s.th[0].pc.PopCas? && s.th[0].copy == Word(2, 1) && s.th[0].next == 2
    ensures s.top == Word(4 * m + 2, 1) && s.live == {1} && |s.spec| == 1
  {
    run, s := Sleep(m, n);
    run, s := PopAlone(m, n, false, run, s, 1);
    run, s := PopAlone(m, n, false, run, s, 1);
    run, s := EmptyPops(m, n, run, s, 1, 4 * m - 4);
    run, s := PushAlone(m, n, false, run, s, 1, 1, 30);
  }

  /** For every number of tag values there is a run that ends with the word naming a node which is
      not in use, while the specification's stack is empty. */
  lemma WindowIsNeeded(m: nat, n: nat) returns (run: Schedule, s: State)
    requires m > 0 && n >= 2
    ensures ValidRun(n, run) && s == Run(m, n, run)
    ensures s.spec == [] && s.top.addr != 0 && s.top.addr !in s.live
  {
    run, s := ComeRound(m, n);
    ModUnique(4 * m + 2, m, 4 + 2 / m, 2 % m);
    run, s := EndPop(m, n, false, run, s, 0);
  }

  // ---------------------------------------------------------------------
  // The exact limit
  // ---------------------------------------------------------------------

  /** The sleeping thread has read the word (1, node 1), the only node. */
  lemma SleepOnOne(m: nat, n: nat) returns (run: Schedule, s: State)
    requires m > 0 && n >= 2
    ensures Reached(m, n, false, run, s) && s.th[1].pc.Idle?
    ensures s.th[0].pc.PopCas? && s.th[0].copy == Word(1, 1) && s.th[0].next == 0
    ensures s.unique == 2 && s.top == Word(1, 1) && s.live == {1} && |s.spec| == 1 && NextOf(s.heap, 1) == 0
  {
    run, s := [], Init(n);
    run, s := PushAlone(m, n, false, run, s, 1, 1, 10);
    run, s := FallAsleep(m, n, run, s);
  }

  /** With `m + 1` numbers drawn node 1 is on top again, under the sleeper's tag, and above another node. */
  lemma ComeRoundOnce(m: nat, n: nat) returns (run: Schedule, s: State)
    requires m >= 4 && n >= 2
    ensures Reached(m, n, false, run, s)
    ensures s.th[0].pc.PopCas? && s.th[0].copy == Word(1, 1) && s.th[0].next == 0
    ensures s.unique == m + 1 && s.top == Word(m + 1, 1) && |s.spec| == 2
  {
    run, s := SleepOnOne(m, n);
    run, s := PopAlone(m, n, false, run, s, 1);
    run, s := EmptyPops(m, n, run, s, 1, m - 4);
    run, s := PushAlone(m, n, false, run, s, 1, 2, 20);
    run, s := PushAlone(m, n, false, run, s, 1, 1, 30);
  }

  /** The sleeper's pop then empties the linked list, and the other value is lost. */
  lemma LosesValue(m: nat, n: nat) returns (run: Schedule, s: State)
    requires m >= 4 && n >= 2
    ensures ValidRun(n, run) && s == Run(m, n, run) && s.unique == m + 1 && s.top.addr == 0 && |s.spec| == 1
  {
    run, s := ComeRoundOnce(m, n);
    ModUnique(m + 1, m, 1, 1);
    run, s := EndPop(m, n, false, run, s, 0);
  }

  /** The exact limit: every run that draws at most `k` numbers is right, if and only if there are at
      least `k` tag values or no second thread. */
  lemma SafeExactly(m: nat, n: nat, k: nat)
    requires m >= 4
    ensures (forall run | ValidRun(n, run) && Run(m, n, run).unique <= k :: Right(Run(m, n, run)))
            <==> n <= 1 || k <= m
  {
    if n <= 1 || k <= m {
      forall run | ValidRun(n, run) && Run(m, n, run).unique <= k ensures Right(Run(m, n, run)) {
        FewNumbersAreRight(m, n, run);
      }
    } else {
      var run, s := LosesValue(m, n);
      assert !Right(s);
    }
  }

  /** For the 17 bits of the source the limit is 131072 numbers. */
  lemma SafeInSource(n: nat, k: nat)
    ensures (forall run | ValidRun(n, run) && Run(TAG_VALUES, n, run).unique <= k :: Right(Run(TAG_VALUES, n, run)))
            <==> n <= 1 || k <= 131072
  {
    SafeExactly(TAG_VALUES, n, k);
  }
}

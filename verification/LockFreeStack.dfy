/**
 The lock-free stack: any number of threads push and pop by compare-and-swap on
 one word that packs a node address with a serial number cut to `m` values
 (17 bits, 131072, in the source). Every access to shared memory is a step.

 Serial numbers are kept in full here; what the hardware can see, and all that a
 step depends on, is the number modulo `m`. Here the node pool is taken as
 specified: it hands out a node that is not in use, and freed nodes stay readable.
 LockFreePool runs the same machine as the pool and proves the first part.
 */
module LockFreeStack {

  const TAG_VALUES := 0x2_0000

  /** The word `unique_top`; address 0 is the null pointer. */
  datatype Word = Word(num: nat, addr: nat)

  datatype Node = Node(next: nat, data: int)

  datatype Item = Item(addr: nat, val: int)

  datatype Pc =
    | Idle
    | PushInit | PushDraw | PushRead | PushLink | PushCas | PushCount
    | PopDraw | PopRead | PopNext | PopCas | PopCount | PopData | PopFree

  /** `node` is the node being pushed or the one just popped, `val` its data. `calls` and
      `balance` record how often the thread has called the stack, and its pushes minus pops that took effect. */
  datatype Thread = Thread(pc: Pc, node: nat, val: int, num: nat, copy: Word, next: nat, calls: nat, balance: int)

  /** `spec` is the stack of the specification, run alongside. */
  datatype State = State(unique: nat, top: Word, count: int, heap: map<nat, Node>, live: set<nat>,
                         th: seq<Thread>, spec: seq<Item>)

  /** CallReturn pushes a node as it is; that is how the pool takes one back. */
  datatype Action = CallPush(addr: nat, data: int) | CallReturn(addr: nat) | CallPop | Continue

  function NextOf(heap: map<nat, Node>, a: nat): nat { if a in heap then heap[a].next else 0 }

  function DataOf(heap: map<nat, Node>, a: nat): int { if a in heap then heap[a].data else 0 }

  function AddrAt(spec: seq<Item>, i: nat): nat { if i < |spec| then spec[i].addr else 0 }

  function NewThread(): Thread { Thread(Idle, 0, 0, 0, Word(0, 0), 0, 0, 0) }

  function Init(n: nat): State { State(0, Word(0, 0), 0, map[], {}, seq(n, _ => NewThread()), []) }

  function Put(s: State, t: nat, me: Thread): State
    requires t < |s.th|
  {
    s.(th := s.th[t := me])
  }

  /** What the compare-and-swap compares. */
  predicate SameWord(m: nat, a: Word, b: Word)
    requires m > 0
  {
    a.num % m == b.num % m && a.addr == b.addr
  }

  function Step(m: nat, s: State, t: nat, a: Action): State
    requires m > 0 && t < |s.th|
  {
    var me := s.th[t];
    match me.pc
    case Idle =>
      (match a
       case CallPush(addr, data) =>
         if addr == 0 || addr in s.live then s  // never handed out by the pool
         else Put(s, t, me.(pc := PushInit, node := addr, val := data, calls := me.calls + 1)).(live := s.live + {addr})
       case CallReturn(addr) =>
         if addr == 0 || addr in s.live then s
         else Put(s, t, me.(pc := PushDraw, node := addr, val := DataOf(s.heap, addr), calls := me.calls + 1))
              .(live := s.live + {addr})
       case CallPop => Put(s, t, me.(pc := PopDraw, calls := me.calls + 1))
       case Continue => s)
    case PushInit => Put(s, t, me.(pc := PushDraw)).(heap := s.heap[me.node := Node(0, me.val)])
    case PushDraw => Put(s, t, me.(pc := PushRead, num := s.unique + 1)).(unique := s.unique + 1)
    case PushRead => Put(s, t, me.(pc := PushLink, copy := s.top))
    case PushLink =>
      Put(s, t, me.(pc := PushCas)).(heap := s.heap[me.node := Node(me.copy.addr, DataOf(s.heap, me.node))])
    case PushCas =>
      if SameWord(m, s.top, me.copy)
      then Put(s, t, me.(pc := PushCount, balance := me.balance + 1))
           .(top := Word(me.num, me.node), spec := [Item(me.node, me.val)] + s.spec)
      else Put(s, t, me.(pc := PushRead))
    case PushCount => Put(s, t, me.(pc := Idle)).(count := s.count + 1)
    case PopDraw => Put(s, t, me.(pc := PopRead, num := s.unique + 1)).(unique := s.unique + 1)
    case PopRead => Put(s, t, me.(pc := if s.top.addr == 0 then Idle else PopNext, copy := s.top))
    case PopNext => Put(s, t, me.(pc := PopCas, next := NextOf(s.heap, me.copy.addr)))
    case PopCas =>
      if SameWord(m, s.top, me.copy)
      then Put(s, t, me.(pc := PopCount, node := me.copy.addr, balance := me.balance - 1,
                         val := if s.spec == [] then 0 else s.spec[0].val))
           .(top := Word(me.num, me.next), spec := if s.spec == [] then [] else s.spec[1..])
      else Put(s, t, me.(pc := PopRead))
    case PopCount => Put(s, t, me.(pc := PopData)).(count := s.count - 1)
    case PopData => Put(s, t, me.(pc := PopFree, val := DataOf(s.heap, me.node)))
    case PopFree => Put(s, t, me.(pc := Idle)).(live := s.live - {me.node})
  }

  type Schedule = seq<(nat, Action)>

  predicate ValidRun(n: nat, run: Schedule) { forall k :: 0 <= k < |run| ==> run[k].0 < n }

  function Run(m: nat, n: nat, run: Schedule): (s: State)
    requires m > 0 && ValidRun(n, run)
    ensures |s.th| == n
  {
    if run == [] then Init(n)
    else Step(m, Run(m, n, run[..|run| - 1]), run[|run| - 1].0, run[|run| - 1].1)
  }

  predicate AtCas(pc: Pc) { pc.PushCas? || pc.PopCas? }

  /** A pop that is about to succeed puts the present successor of the top node into the word. A push
      writes its own node's successor itself, right before it compares, and has nothing to go stale. */
  predicate Current(m: nat, s: State, t: nat)
    requires m > 0 && t < |s.th|
  {
    s.th[t].pc.PopCas? && SameWord(m, s.top, s.th[t].copy) ==> s.th[t].next == NextOf(s.heap, s.th[t].copy.addr)
  }

  predicate CurrentRun(m: nat, n: nat, run: Schedule)
    requires m > 0 && ValidRun(n, run)
  {
    run != [] ==>
      && CurrentRun(m, n, run[..|run| - 1])
      && Current(m, Run(m, n, run[..|run| - 1]), run[|run| - 1].0)
  }

  predicate Near(m: nat, a: nat, b: nat) { a < b + m && b < a + m }

  /** A pop that compares and finds the node it copied on top: fewer than `m` numbers lie in between. */
  predicate InWindow(m: nat, s: State, t: nat)
    requires t < |s.th|
  {
    s.th[t].pc.PopCas? && s.top.addr == s.th[t].copy.addr ==> Near(m, s.top.num, s.th[t].copy.num)
  }

  predicate WindowRun(m: nat, n: nat, run: Schedule)
    requires m > 0 && ValidRun(n, run)
  {
    run != [] ==>
      && WindowRun(m, n, run[..|run| - 1])
      && InWindow(m, Run(m, n, run[..|run| - 1]), run[|run| - 1].0)
  }

  // ---------------------------------------------------------------------
  // Invariant
  // ---------------------------------------------------------------------

  predicate Pushing(pc: Pc) { pc.PushInit? || pc.PushDraw? || pc.PushRead? || pc.PushLink? || pc.PushCas? }

  predicate Popping(pc: Pc) { pc.PopDraw? || pc.PopRead? || pc.PopNext? || pc.PopCas? }

  predicate Owns(pc: Pc) {
    || pc.PushInit? || pc.PushDraw? || pc.PushRead? || pc.PushLink? || pc.PushCas?
    || pc.PopCount? || pc.PopData? || pc.PopFree?
  }

  predicate HasData(pc: Pc) { Owns(pc) && !pc.PushInit? }

  /** Drawn a number that is not yet in the word. */
  predicate HasNum(pc: Pc) { pc.PushRead? || pc.PushLink? || pc.PushCas? || pc.PopRead? || pc.PopNext? || pc.PopCas? }

  predicate HasCopy(pc: Pc) { pc.PushLink? || pc.PushCas? || pc.PopNext? || pc.PopCas? }

  /** The nodes of the specification's stack, linked in this order from the word. */
  predicate Linked(s: State) {
    && s.top.addr == AddrAt(s.spec, 0)
    && s.top.num <= s.unique
    && (forall i :: 0 <= i < |s.spec| ==>
          && s.spec[i].addr != 0 && s.spec[i].addr in s.live
          && NextOf(s.heap, s.spec[i].addr) == AddrAt(s.spec, i + 1)
          && DataOf(s.heap, s.spec[i].addr) == s.spec[i].val)
    && (forall i, j :: 0 <= i < j < |s.spec| ==> s.spec[i].addr != s.spec[j].addr)
  }

  predicate InSpec(spec: seq<Item>, a: nat) { exists i :: 0 <= i < |spec| && spec[i].addr == a }

  predicate ThreadInv(s: State, me: Thread) {
    && (Owns(me.pc) ==> me.node != 0 && me.node in s.live && !InSpec(s.spec, me.node))
    && (HasData(me.pc) ==> DataOf(s.heap, me.node) == me.val)
    && (HasNum(me.pc) ==> me.num <= s.unique && me.num != s.top.num)
    && (HasCopy(me.pc) ==>
          && me.copy.num <= s.unique && me.copy.num != me.num
          && (me.copy.num == s.top.num ==> me.copy == s.top))
    && (me.pc.PushCas? ==> NextOf(s.heap, me.node) == me.copy.addr)
    && (me.pc.PopNext? || me.pc.PopCas? ==> me.copy.addr != 0)
    && (me.pc.PopCas? && me.copy.num == s.top.num ==> me.next == NextOf(s.heap, me.copy.addr))
  }

  /** Two threads never own the same node or number, nor hold a copy of a word the other is still to write. */
  predicate Apart(a: Thread, b: Thread) {
    && (Owns(a.pc) && Owns(b.pc) ==> a.node != b.node)
    && (HasNum(a.pc) && HasNum(b.pc) ==> a.num != b.num)
    && (HasNum(a.pc) && HasCopy(b.pc) ==> a.num != b.copy.num)
    && (HasNum(b.pc) && HasCopy(a.pc) ==> b.num != a.copy.num)
  }

  ghost predicate Inv(s: State) {
    && Linked(s)
    && (forall t :: 0 <= t < |s.th| ==> ThreadInv(s, s.th[t]))
    && (forall t, u :: 0 <= t < |s.th| && 0 <= u < |s.th| && t != u ==> Apart(s.th[t], s.th[u]))
  }

  /** In the window, equal words are the same word. */
  lemma SameWordIsSame(m: nat, a: Word, b: Word)
    requires m > 0 && Near(m, a.num, b.num)
    ensures a.num % m == b.num % m ==> a.num == b.num
  {
    if a.num % m == b.num % m {
      var d := a.num / m - b.num / m;
      assert a.num - b.num == d * m;
    }
  }

  lemma StepTouchesOne(m: nat, s: State, t: nat, a: Action)
    requires m > 0 && t < |s.th|
    ensures var s' := Step(m, s, t, a); |s'.th| == |s.th| && s'.th == s.th[t := s'.th[t]]
  {
    assert s.th[t := s.th[t]] == s.th;
  }

  /** What one step by `t` has to be checked for. */
  lemma Assemble(s: State, s': State, t: nat)
    requires Inv(s) && t < |s.th| == |s'.th| && s'.th == s.th[t := s'.th[t]]
    requires Linked(s') && ThreadInv(s', s'.th[t])
    requires forall u :: 0 <= u < |s.th| && u != t ==> ThreadInv(s', s.th[u]) && Apart(s'.th[t], s.th[u])
    ensures Inv(s')
  {
  }

  predicate IsLocal(m: nat, s: State, me: Thread, a: Action)
    requires m > 0
  {
    || me.pc.PushDraw? || me.pc.PushRead? || me.pc.PushCount? || me.pc.PopDraw? || me.pc.PopRead?
    || me.pc.PopNext? || me.pc.PopCount? || me.pc.PopData? || (me.pc.Idle? && (a.CallPop? || a.Continue?))
    || (AtCas(me.pc) && !SameWord(m, s.top, me.copy))
  }

  lemma LocalSelf(m: nat, s: State, t: nat, a: Action)
    requires m > 0 && t < |s.th| && Linked(s) && ThreadInv(s, s.th[t]) && IsLocal(m, s, s.th[t], a)
    ensures var s' := Step(m, s, t, a); |s'.th| == |s.th| && Linked(s') && ThreadInv(s', s'.th[t])
  {
    StepTouchesOne(m, s, t, a);
  }

  lemma LocalOther(m: nat, s: State, t: nat, a: Action, o: Thread)
    requires m > 0 && t < |s.th| && Linked(s) && IsLocal(m, s, s.th[t], a)
    requires ThreadInv(s, s.th[t]) && ThreadInv(s, o) && Apart(s.th[t], o)
    ensures var s' := Step(m, s, t, a); ThreadInv(s', o) && Apart(s'.th[t], o)
  {
    StepTouchesOne(m, s, t, a);
  }

  /** Steps that change nothing but the stepping thread and the two counters. */
  lemma LocalStep(m: nat, s: State, t: nat, a: Action)
    requires m > 0 && t < |s.th| && Inv(s) && IsLocal(m, s, s.th[t], a)
    ensures Inv(Step(m, s, t, a))
  {
    LocalSelf(m, s, t, a);
    StepTouchesOne(m, s, t, a);
    forall u | 0 <= u < |s.th| && u != t
      ensures ThreadInv(Step(m, s, t, a), s.th[u]) && Apart(Step(m, s, t, a).th[t], s.th[u])
    {
      LocalOther(m, s, t, a, s.th[u]);
    }
    Assemble(s, Step(m, s, t, a), t);
  }

  /** A write to a node that its owner has not put into the stack. */
  lemma WriteStep(m: nat, s: State, t: nat, a: Action)
    requires m > 0 && t < |s.th| && Inv(s) && (s.th[t].pc.PushInit? || s.th[t].pc.PushLink?)
    ensures Inv(Step(m, s, t, a))
  {
    var s' := Step(m, s, t, a);
    forall u | 0 <= u < |s.th| && u != t ensures ThreadInv(s', s.th[u]) && Apart(s'.th[t], s.th[u]) {
      WriteOther(m, s, t, a, s.th[u]);
    }
    assert Linked(s') by {
      forall i | 0 <= i < |s.spec| ensures s.spec[i].addr != s.th[t].node {}
    }
    Assemble(s, s', t);
  }

  lemma WriteOther(m: nat, s: State, t: nat, a: Action, o: Thread)
    requires m > 0 && t < |s.th| && Linked(s) && (s.th[t].pc.PushInit? || s.th[t].pc.PushLink?)
    requires ThreadInv(s, s.th[t]) && ThreadInv(s, o) && Apart(s.th[t], o)
    ensures var s' := Step(m, s, t, a); ThreadInv(s', o) && Apart(s'.th[t], o)
  {
    if o.pc.PopCas? && o.copy.num == s.top.num {
      assert s.spec[0].addr == o.copy.addr;
    }
  }

  /** The pool hands out a node that is not in use. */
  lemma CallStep(m: nat, s: State, t: nat, a: Action)
    requires m > 0 && t < |s.th| && Inv(s) && s.th[t].pc.Idle? && (a.CallPush? || a.CallReturn?)
    ensures Inv(Step(m, s, t, a))
  {
    var s' := Step(m, s, t, a);
    assert s.th[t := s.th[t]] == s.th;
    if s' != s {
      forall i | 0 <= i < |s.spec| ensures s.spec[i].addr != a.addr {}
    }
    forall u | 0 <= u < |s.th| && u != t ensures ThreadInv(s', s.th[u]) && Apart(s'.th[t], s.th[u]) {
      assert Apart(s.th[t], s.th[u]);
    }
    Assemble(s, s', t);
  }

  /** The pool takes a node back from its owner. */
  lemma FreeStep(m: nat, s: State, t: nat, a: Action)
    requires m > 0 && t < |s.th| && Inv(s) && s.th[t].pc.PopFree?
    ensures Inv(Step(m, s, t, a))
  {
    var s' := Step(m, s, t, a);
    forall i | 0 <= i < |s.spec| ensures s.spec[i].addr != s.th[t].node {}
    forall u | 0 <= u < |s.th| && u != t ensures ThreadInv(s', s.th[u]) && Apart(s'.th[t], s.th[u]) {
      assert Apart(s.th[t], s.th[u]);
    }
    Assemble(s, s', t);
  }

  lemma LinkedAfterPush(s: State, s': State, me: Thread)
    requires Linked(s) && ThreadInv(s, me) && me.pc.PushCas? && s.top.addr == me.copy.addr
    requires s'.top == Word(me.num, me.node) && s'.spec == [Item(me.node, me.val)] + s.spec
    requires s'.unique == s.unique && s'.heap == s.heap && s'.live == s.live
    ensures Linked(s')
  {
    forall i | 0 <= i < |s'.spec|
      ensures NextOf(s'.heap, s'.spec[i].addr) == AddrAt(s'.spec, i + 1) && s'.spec[i].addr in s'.live
      ensures s'.spec[i].addr != 0 && DataOf(s'.heap, s'.spec[i].addr) == s'.spec[i].val
    {
      assert i > 0 ==> s'.spec[i] == s.spec[i - 1] && AddrAt(s'.spec, i + 1) == AddrAt(s.spec, i);
    }
    forall i, j | 0 <= i < j < |s'.spec| ensures s'.spec[i].addr != s'.spec[j].addr {
      assert s'.spec[j] == s.spec[j - 1] && (i > 0 ==> s'.spec[i] == s.spec[i - 1]);
    }
  }

  lemma OtherAfterPush(s: State, s': State, me: Thread, o: Thread)
    requires ThreadInv(s, me) && ThreadInv(s, o) && Apart(me, o) && me.pc.PushCas?
    requires s'.top == Word(me.num, me.node) && s'.spec == [Item(me.node, me.val)] + s.spec
    requires s'.unique == s.unique && s'.heap == s.heap && s'.live == s.live
    ensures ThreadInv(s', o)
  {
    if Owns(o.pc) {
      forall i | 0 <= i < |s'.spec| ensures s'.spec[i].addr != o.node {
        assert i > 0 ==> s'.spec[i] == s.spec[i - 1];
      }
    }
  }

  /** A push takes effect, however old the word is that it copied. */
  lemma PushTakesEffect(m: nat, s: State, t: nat, a: Action)
    requires m > 0 && t < |s.th| && Inv(s)
    requires s.th[t].pc.PushCas? && SameWord(m, s.top, s.th[t].copy)
    ensures Inv(Step(m, s, t, a))
  {
    var s', me := Step(m, s, t, a), s.th[t];
    LinkedAfterPush(s, s', me);
    forall u | 0 <= u < |s.th| && u != t ensures ThreadInv(s', s.th[u]) && Apart(s'.th[t], s.th[u]) {
      assert Apart(me, s.th[u]);
      OtherAfterPush(s, s', me, s.th[u]);
    }
    Assemble(s, s', t);
  }

  /** A pop takes effect exactly if it is current: it takes the top of the specification's stack. */
  lemma PopTakesEffect(m: nat, s: State, t: nat, a: Action)
    requires m > 0 && t < |s.th| && Inv(s)
    requires s.th[t].pc.PopCas? && SameWord(m, s.top, s.th[t].copy)
    ensures s.spec != [] && s.spec[0].addr == s.th[t].copy.addr
    ensures Current(m, s, t) ==> Inv(Step(m, s, t, a))
    ensures !Current(m, s, t) ==> !Linked(Step(m, s, t, a))
  {
    var s', me := Step(m, s, t, a), s.th[t];
    assert s.spec != [] && s.spec[0].addr == me.copy.addr;
    assert AddrAt(s'.spec, 0) == AddrAt(s.spec, 1) == NextOf(s.heap, me.copy.addr);
    if Current(m, s, t) {
      LinkedAfterPop(s, s', me);
      forall u | 0 <= u < |s.th| && u != t ensures ThreadInv(s', s.th[u]) && Apart(s'.th[t], s.th[u]) {
        assert Apart(me, s.th[u]);
        OtherAfterPop(s, s', me, s.th[u]);
      }
      Assemble(s, s', t);
    }
  }

  lemma LinkedAfterPop(s: State, s': State, me: Thread)
    requires Linked(s) && ThreadInv(s, me) && me.pc.PopCas? && s.spec != [] && s.spec[0].addr == me.copy.addr
    requires me.next == NextOf(s.heap, me.copy.addr) && s'.top == Word(me.num, me.next) && s'.spec == s.spec[1..]
    requires s'.unique == s.unique && s'.heap == s.heap && s'.live == s.live
    ensures Linked(s') && !InSpec(s'.spec, me.copy.addr)
  {
    forall i | 0 <= i < |s'.spec|
      ensures s'.spec[i] == s.spec[i + 1] && AddrAt(s'.spec, i + 1) == AddrAt(s.spec, i + 2) {}
    assert AddrAt(s'.spec, 0) == AddrAt(s.spec, 1);
    forall i | 0 <= i < |s'.spec| ensures s'.spec[i].addr != me.copy.addr { assert s'.spec[i] == s.spec[i + 1]; }
  }

  lemma OtherAfterPop(s: State, s': State, me: Thread, o: Thread)
    requires Linked(s) && ThreadInv(s, me) && ThreadInv(s, o) && Apart(me, o) && me.pc.PopCas? && s.spec != []
    requires s'.top == Word(me.num, me.next) && s'.spec == s.spec[1..]
    requires s'.unique == s.unique && s'.heap == s.heap && s'.live == s.live
    ensures ThreadInv(s', o)
  {
    if Owns(o.pc) {
      forall i | 0 <= i < |s'.spec| ensures s'.spec[i].addr != o.node { assert s'.spec[i] == s.spec[i + 1]; }
    }
  }

  lemma StepKeepsInv(m: nat, s: State, t: nat, a: Action)
    requires m > 0 && t < |s.th| && Inv(s) && Current(m, s, t)
    ensures Inv(Step(m, s, t, a))
  {
    var me := s.th[t];
    if IsLocal(m, s, me, a) {
      LocalStep(m, s, t, a);
    } else if me.pc.PushInit? || me.pc.PushLink? {
      WriteStep(m, s, t, a);
    } else if me.pc.Idle? {
      CallStep(m, s, t, a);
    } else if me.pc.PopFree? {
      FreeStep(m, s, t, a);
    } else if me.pc.PushCas? {
      PushTakesEffect(m, s, t, a);
    } else {
      PopTakesEffect(m, s, t, a);
    }
  }

  lemma {:induction false} RunKeepsInv(m: nat, n: nat, run: Schedule)
    requires m > 0 && ValidRun(n, run) && CurrentRun(m, n, run)
    ensures Inv(Run(m, n, run))
  {
    if run != [] {
      RunKeepsInv(m, n, run[..|run| - 1]);
      StepKeepsInv(m, Run(m, n, run[..|run| - 1]), run[|run| - 1].0, run[|run| - 1].1);
    }
  }

  // ---------------------------------------------------------------------
  // Linearizability
  // ---------------------------------------------------------------------

  /** The linked nodes are the specification's stack, a pop finds the word null exactly when
      that stack is empty, and it returns the value that the specification popped. */
  predicate Right(s: State) {
    && Linked(s)
    && (s.top.addr == 0 <==> s.spec == [])
    && forall t :: 0 <= t < |s.th| && (s.th[t].pc.PopCount? || s.th[t].pc.PopData? || s.th[t].pc.PopFree?) ==>
         DataOf(s.heap, s.th[t].node) == s.th[t].val
  }

  lemma InvIsRight(s: State)
    requires Inv(s)
    ensures Right(s)
  {
    forall t | 0 <= t < |s.th| && (s.th[t].pc.PopCount? || s.th[t].pc.PopData? || s.th[t].pc.PopFree?)
      ensures DataOf(s.heap, s.th[t].node) == s.th[t].val
    {
      assert ThreadInv(s, s.th[t]);
    }
  }

  predicate AlwaysRight(m: nat, n: nat, run: Schedule)
    requires m > 0 && ValidRun(n, run)
  {
    Right(Run(m, n, run)) && (run != [] ==> AlwaysRight(m, n, run[..|run| - 1]))
  }

  /** For every schedule: the stack is right all along if and only if every pop that succeeds is current. */
  lemma {:induction false} Linearizable(m: nat, n: nat, run: Schedule)
    requires m > 0 && ValidRun(n, run)
    ensures AlwaysRight(m, n, run) <==> CurrentRun(m, n, run)
  {
    if CurrentRun(m, n, run) {
      RunKeepsInv(m, n, run);
      InvIsRight(Run(m, n, run));
    }
    if run != [] {
      var before, t, a := run[..|run| - 1], run[|run| - 1].0, run[|run| - 1].1;
      var s := Run(m, n, before);
      Linearizable(m, n, before);
      if CurrentRun(m, n, before) && !Current(m, s, t) {
        RunKeepsInv(m, n, before);
        PopTakesEffect(m, s, t, a);
      }
    }
  }

  /** A compare-and-swap that succeeds takes effect as specified. */
  lemma CasTakesEffect(m: nat, n: nat, run: Schedule, t: nat, a: Action)
    requires m > 0 && ValidRun(n, run) && CurrentRun(m, n, run) && t < n
    requires var s := Run(m, n, run); AtCas(s.th[t].pc) && SameWord(m, s.top, s.th[t].copy)
    ensures var s := Run(m, n, run);
            var me := s.th[t];
            && (me.pc.PushCas? ==> Step(m, s, t, a).spec == [Item(me.node, DataOf(s.heap, me.node))] + s.spec)
            && (me.pc.PopCas? ==>
                  s.spec != [] && s.spec[0].addr == me.copy.addr && Step(m, s, t, a).spec == s.spec[1..])
            && (me.pc.PopCas? && InWindow(m, s, t) ==> s.top == me.copy)
  {
    var s := Run(m, n, run);
    RunKeepsInv(m, n, run);
    assert ThreadInv(s, s.th[t]);
    if s.th[t].pc.PopCas? {
      PopTakesEffect(m, s, t, a);
      if InWindow(m, s, t) { SameWordIsSame(m, s.top, s.th[t].copy); }
    }
  }

  /** In the window every pop that succeeds is current. */
  lemma {:induction false} WindowRunIsCurrent(m: nat, n: nat, run: Schedule)
    requires m > 0 && ValidRun(n, run) && WindowRun(m, n, run)
    ensures CurrentRun(m, n, run)
  {
    if run != [] {
      var before, t := run[..|run| - 1], run[|run| - 1].0;
      var s := Run(m, n, before);
      WindowRunIsCurrent(m, n, before);
      RunKeepsInv(m, n, before);
      assert ThreadInv(s, s.th[t]);
      if s.th[t].pc.PopCas? && SameWord(m, s.top, s.th[t].copy) { SameWordIsSame(m, s.top, s.th[t].copy); }
    }
  }

  // ---------------------------------------------------------------------
  // How many numbers may be drawn
  // ---------------------------------------------------------------------

  /** Numbers start at 1, so a word that names a node has one. */
  predicate WordDrawn(s: State, w: Word) { w.num <= s.unique && (w.addr != 0 ==> w.num > 0) }

  predicate ThreadDrawn(s: State, me: Thread) {
    && WordDrawn(s, me.copy)
    && me.num <= s.unique
    && (HasNum(me.pc) ==> me.num > 0)
    && (me.pc.PopNext? || me.pc.PopCas? ==> me.copy.addr != 0)
  }

  predicate NumsDrawn(s: State) {
    WordDrawn(s, s.top) && forall t :: 0 <= t < |s.th| ==> ThreadDrawn(s, s.th[t])
  }

  lemma OwnNums(m: nat, s: State, t: nat, a: Action)
    requires m > 0 && t < |s.th| && WordDrawn(s, s.top) && ThreadDrawn(s, s.th[t])
    ensures var s' := Step(m, s, t, a);
            |s'.th| == |s.th| && WordDrawn(s', s'.top) && ThreadDrawn(s', s'.th[t]) && s.unique <= s'.unique
  {
    StepTouchesOne(m, s, t, a);
  }

  lemma StepDrawsNums(m: nat, s: State, t: nat, a: Action)
    requires m > 0 && t < |s.th| && NumsDrawn(s)
    ensures NumsDrawn(Step(m, s, t, a)) && s.unique <= Step(m, s, t, a).unique
  {
    OwnNums(m, s, t, a);
    StepTouchesOne(m, s, t, a);
  }

  /** As long as at most `m` numbers have been drawn, every run stays in the window. */
  lemma {:induction false} ShortRunsStayInWindow(m: nat, n: nat, run: Schedule)
    requires m > 0 && ValidRun(n, run)
    ensures NumsDrawn(Run(m, n, run))
    ensures Run(m, n, run).unique <= m ==> WindowRun(m, n, run)
  {
    if run != [] {
      var before, t := run[..|run| - 1], run[|run| - 1].0;
      var s := Run(m, n, before);
      ShortRunsStayInWindow(m, n, before);
      StepDrawsNums(m, s, t, run[|run| - 1].1);
      assert ThreadDrawn(s, s.th[t]);
    }
  }

  predicate CopyIsTop(s: State, me: Thread) { HasCopy(me.pc) ==> me.copy == s.top }

  lemma SoloStep(m: nat, s: State, a: Action)
    requires m > 0 && |s.th| == 1 && CopyIsTop(s, s.th[0])
    ensures CopyIsTop(Step(m, s, 0, a), Step(m, s, 0, a).th[0])
  {
    StepTouchesOne(m, s, 0, a);
  }

  /** A thread on its own finds the word as it left it, so its pops are current however many numbers are drawn. */
  lemma {:induction false} SoloRunIsCurrent(m: nat, run: Schedule)
    requires m > 0 && ValidRun(1, run)
    ensures CurrentRun(m, 1, run) && CopyIsTop(Run(m, 1, run), Run(m, 1, run).th[0])
  {
    if run != [] {
      var before, step := run[..|run| - 1], run[|run| - 1];
      var s := Run(m, 1, before);
      SoloRunIsCurrent(m, before);
      RunKeepsInv(m, 1, before);
      assert ThreadInv(s, s.th[0]) && step.0 == 0;
      SoloStep(m, s, step.1);
    }
  }

  lemma NoThreadsNoSteps(run: Schedule)
    ensures run != [] ==> !ValidRun(0, run)
  {
    if run != [] { assert !(run[0].0 < 0); }
  }

  /** Runs that are right: of at most one thread, or with no more numbers drawn than there are tag values. */
  lemma FewNumbersAreRight(m: nat, n: nat, run: Schedule)
    requires m > 0 && ValidRun(n, run) && (n <= 1 || Run(m, n, run).unique <= m)
    ensures CurrentRun(m, n, run) && Right(Run(m, n, run))
  {
    if n == 0 {
      NoThreadsNoSteps(run);
    } else if n == 1 {
      SoloRunIsCurrent(m, run);
    } else {
      ShortRunsStayInWindow(m, n, run);
      WindowRunIsCurrent(m, n, run);
    }
    RunKeepsInv(m, n, run);
    InvIsRight(Run(m, n, run));
  }

  // ---------------------------------------------------------------------
  // The node counter
  // ---------------------------------------------------------------------

  /** A thread's contribution to node_count: its effective pushes and pops that it has also counted. */
  function Counted(me: Thread): int {
    me.balance - (if me.pc.PushCount? then 1 else 0) + if me.pc.PopCount? then 1 else 0
  }

  function CountedSum(th: seq<Thread>): int { if th == [] then 0 else Counted(th[0]) + CountedSum(th[1..]) }

  function BalanceSum(th: seq<Thread>): int { if th == [] then 0 else th[0].balance + BalanceSum(th[1..]) }

  lemma {:induction false} SumsAfterPut(th: seq<Thread>, t: nat, me: Thread)
    requires t < |th|
    ensures CountedSum(th[t := me]) == CountedSum(th) - Counted(th[t]) + Counted(me)
    ensures BalanceSum(th[t := me]) == BalanceSum(th) - th[t].balance + me.balance
  {
    if t == 0 {
      assert th[t := me][1..] == th[1..];
    } else {
      assert th[t := me][1..] == th[1..][t - 1 := me];
      SumsAfterPut(th[1..], t - 1, me);
    }
  }

  lemma {:induction false} SumsOfIdle(th: seq<Thread>)
    requires forall t :: 0 <= t < |th| ==> th[t] == NewThread()
    ensures CountedSum(th) == 0 && BalanceSum(th) == 0
  {
    if th != [] { SumsOfIdle(th[1..]); }
  }

  lemma StepCount(m: nat, s: State, t: nat, a: Action)
    requires m > 0 && t < |s.th|
    ensures var s' := Step(m, s, t, a);
            |s'.th| == |s.th| && s'.count - s.count == Counted(s'.th[t]) - Counted(s.th[t])
  {
    StepTouchesOne(m, s, t, a);
  }

  /** In every run node_count is the sum of what the threads have counted. */
  lemma {:induction false} CountIsSum(m: nat, n: nat, run: Schedule)
    requires m > 0 && ValidRun(n, run)
    ensures Run(m, n, run).count == CountedSum(Run(m, n, run).th)
  {
    if run == [] {
      SumsOfIdle(Init(n).th);
    } else {
      var s, t := Run(m, n, run[..|run| - 1]), run[|run| - 1].0;
      CountIsSum(m, n, run[..|run| - 1]);
      StepCount(m, s, t, run[|run| - 1].1);
      StepTouchesOne(m, s, t, run[|run| - 1].1);
      SumsAfterPut(s.th, t, Run(m, n, run).th[t]);
    }
  }

  lemma StepHeight(m: nat, s: State, t: nat, a: Action)
    requires m > 0 && t < |s.th|
    requires s.th[t].pc.PopCas? && SameWord(m, s.top, s.th[t].copy) ==> s.spec != []
    ensures var s' := Step(m, s, t, a);
            |s'.th| == |s.th| && |s'.spec| - |s.spec| == s'.th[t].balance - s.th[t].balance
  {
    StepTouchesOne(m, s, t, a);
  }

  /** In every run whose pops are current the stack's height is the sum of the threads' balances. */
  lemma {:induction false} HeightIsSum(m: nat, n: nat, run: Schedule)
    requires m > 0 && ValidRun(n, run) && CurrentRun(m, n, run)
    ensures |Run(m, n, run).spec| == BalanceSum(Run(m, n, run).th)
  {
    if run == [] {
      SumsOfIdle(Init(n).th);
    } else {
      var before, t, a := run[..|run| - 1], run[|run| - 1].0, run[|run| - 1].1;
      var s, s' := Run(m, n, before), Run(m, n, run);
      HeightIsSum(m, n, before);
      RunKeepsInv(m, n, before);
      if s.th[t].pc.PopCas? && SameWord(m, s.top, s.th[t].copy) { PopTakesEffect(m, s, t, a); }
      StepHeight(m, s, t, a);
      StepTouchesOne(m, s, t, a);
      SumsAfterPut(s.th, t, s'.th[t]);
    }
  }

  /** When no operation is in flight the counter is the height. */
  lemma {:induction false} IdleSums(th: seq<Thread>)
    requires forall t :: 0 <= t < |th| ==> th[t].pc.Idle?
    ensures CountedSum(th) == BalanceSum(th)
  {
    if th != [] { IdleSums(th[1..]); }
  }

  lemma CountAtRest(m: nat, n: nat, run: Schedule)
    requires m > 0 && ValidRun(n, run) && CurrentRun(m, n, run)
    requires forall t :: 0 <= t < n ==> Run(m, n, run).th[t].pc.Idle?
    ensures Run(m, n, run).count == |Run(m, n, run).spec|
  {
    CountIsSum(m, n, run);
    HeightIsSum(m, n, run);
    IdleSums(Run(m, n, run).th);
  }
}

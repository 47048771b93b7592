/**
 What the machine with store buffers promises each thread, whatever the fences and
 the schedule: stores reach memory in program order, a load sees the thread's own
 newest store, a thread alone counts right, and a passed fence has published what
 was stored in front of it.
 */
module PetersonTSOMemory {
  import opened PetersonProgram
  import opened PetersonTSO

  // ---------------------------------------------------------------------
  // Program order
  // ---------------------------------------------------------------------

  /** What the instruction at the thread's program point stores. */
  function StoreOf(t: Tid, me: Thread): seq<Write> {
    match me.pc
    case RaiseFlag => [WFlag(true)]
    case GiveTurn => [WTurn(Other(t))]
    case StoreCnt => [WCnt(me.tmp + 1)]
    case LowerFlag => [WFlag(false)]
    case _ => []
  }

  /** All stores of thread `t`, in program order. */
  function Stored(p: Fencing, n: nat, run: seq<Action>, t: Tid): seq<Write> {
    if run == [] then []
    else
      var before, a := run[..|run| - 1], run[|run| - 1];
      Stored(p, n, before, t) + if a == Exec(t) then StoreOf(t, Run(p, n, Init(), before).Th(t)) else []
  }

  /** How many of them have reached memory. */
  function Committed(p: Fencing, n: nat, run: seq<Action>, t: Tid): nat {
    if run == [] then 0
    else
      var before, a := run[..|run| - 1], run[|run| - 1];
      Committed(p, n, before, t) + if a == Drain(t) && Run(p, n, Init(), before).Th(t).buf != [] then 1 else 0
  }

  lemma ExecStores(p: Fencing, n: nat, s: State, t: Tid)
    ensures Step(p, n, s, Exec(t)).Th(t).buf == s.Th(t).buf + StoreOf(t, s.Th(t))
    ensures Step(p, n, s, Exec(t)).Th(Other(t)) == s.Th(Other(t))
  {
    var me := s.Th(t);
    assert me.buf + [] == me.buf;
  }

  lemma DrainTakes(p: Fencing, n: nat, s: State, t: Tid)
    ensures Step(p, n, s, Drain(t)).Th(t).buf == if s.Th(t).buf == [] then [] else s.Th(t).buf[1..]
    ensures Step(p, n, s, Drain(t)).Th(Other(t)) == s.Th(Other(t))
  {
  }

  /** The buffer is always the rest of the thread's stores that has not reached memory yet. */
  lemma {:induction false} BufferIsRest(p: Fencing, n: nat, run: seq<Action>, t: Tid)
    ensures Committed(p, n, run, t) <= |Stored(p, n, run, t)|
    ensures Run(p, n, Init(), run).Th(t).buf == Stored(p, n, run, t)[Committed(p, n, run, t)..]
  {
    if run != [] {
      var before, a := run[..|run| - 1], run[|run| - 1];
      var s, ws, k := Run(p, n, Init(), before), Stored(p, n, before, t), Committed(p, n, before, t);
      BufferIsRest(p, n, before, t);
      if a == Exec(t) {
        ExecStores(p, n, s, t);
        assert (ws + StoreOf(t, s.Th(t)))[k..] == ws[k..] + StoreOf(t, s.Th(t));
      } else if a == Drain(t) {
        DrainTakes(p, n, s, t);
        assert ws + [] == ws;
      } else {
        OtherUntouched(p, n, s, a);
        assert t == Other(a.t) && ws + [] == ws;
      }
    }
  }

  /** A drain writes the oldest store that memory does not have, to its variable and to no other. */
  lemma DrainIsInOrder(p: Fencing, n: nat, run: seq<Action>, t: Tid)
    requires Run(p, n, Init(), run).Th(t).buf != []
    ensures Committed(p, n, run, t) < |Stored(p, n, run, t)|
    ensures var s := Run(p, n, Init(), run);
            var s' := Step(p, n, s, Drain(t));
            && s'.Flag(Other(t)) == s.Flag(Other(t))
            && match Stored(p, n, run, t)[Committed(p, n, run, t)]
               case WFlag(b) => s'.Flag(t) == b && s'.turn == s.turn && s'.cnt == s.cnt
               case WTurn(v) => s'.turn == v && s'.Flag(t) == s.Flag(t) && s'.cnt == s.cnt
               case WCnt(v) => s'.cnt == v && s'.Flag(t) == s.Flag(t) && s'.turn == s.turn
  {
    BufferIsRest(p, n, run, t);
  }

  /** An instruction writes no memory. */
  lemma ExecLeavesMemory(p: Fencing, n: nat, s: State, t: Tid)
    ensures var s' := Step(p, n, s, Exec(t));
            s'.flag0 == s.flag0 && s'.flag1 == s.flag1 && s'.turn == s.turn && s'.cnt == s.cnt
  {
  }

  // ---------------------------------------------------------------------
  // Forwarding
  // ---------------------------------------------------------------------

  predicate LastCnt(ws: seq<Write>, i: nat) {
    i < |ws| && ws[i].WCnt? && forall j :: i < j < |ws| ==> !ws[j].WCnt?
  }

  predicate LastTurn(ws: seq<Write>, i: nat) {
    i < |ws| && ws[i].WTurn? && forall j :: i < j < |ws| ==> !ws[j].WTurn?
  }

  /** None of these stores is of the kind. */
  predicate NoCnt(ws: seq<Write>) { forall j :: 0 <= j < |ws| ==> !ws[j].WCnt? }

  predicate NoTurn(ws: seq<Write>) { forall j :: 0 <= j < |ws| ==> !ws[j].WTurn? }

  lemma {:induction false} ReadCntSees(buf: seq<Write>, mem: int)
    ensures forall i: nat :: LastCnt(buf, i) ==> ReadCnt(buf, mem) == buf[i].v
    ensures NoCnt(buf) ==> ReadCnt(buf, mem) == mem
  {
    if buf != [] && !buf[|buf| - 1].WCnt? {
      var front := buf[..|buf| - 1];
      ReadCntSees(front, mem);
      forall i: nat | LastCnt(buf, i) ensures ReadCnt(buf, mem) == buf[i].v { assert LastCnt(front, i); }
    }
  }

  lemma {:induction false} ReadTurnSees(buf: seq<Write>, mem: int)
    ensures forall i: nat :: LastTurn(buf, i) ==> ReadTurn(buf, mem) == buf[i].v
    ensures NoTurn(buf) ==> ReadTurn(buf, mem) == mem
  {
    if buf != [] && !buf[|buf| - 1].WTurn? {
      var front := buf[..|buf| - 1];
      ReadTurnSees(front, mem);
      forall i: nat | LastTurn(buf, i) ensures ReadTurn(buf, mem) == buf[i].v { assert LastTurn(front, i); }
    }
  }

  lemma ExecLoads(p: Fencing, n: nat, s: State, t: Tid)
    ensures var me, me' := s.Th(t), Step(p, n, s, Exec(t)).Th(t);
            && (me.pc.LoadCnt? ==> me'.tmp == ReadCnt(me.buf, s.cnt))
            && (me.pc.TestTurn? ==> (me'.pc.TestFlag? <==> ReadTurn(me.buf, s.turn) == Other(t)))
  {
  }

  /** The last store of a kind is the last one of the buffer, if it is still buffered. */
  lemma LastOfRest(ws: seq<Write>, k: nat)
    requires k <= |ws|
    ensures forall i: nat :: LastCnt(ws, i) && i >= k ==> LastCnt(ws[k..], i - k)
    ensures forall i: nat :: LastTurn(ws, i) && i >= k ==> LastTurn(ws[k..], i - k)
  {
  }

  /** The load of `cnt` gives the value that the thread stored last, as long as memory does not have that store,
      and otherwise what memory holds. */
  lemma LoadOfCnt(p: Fencing, n: nat, run: seq<Action>, t: Tid, loaded: int, i: nat)
    requires Run(p, n, Init(), run).Th(t).pc.LoadCnt?
    requires loaded == Step(p, n, Run(p, n, Init(), run), Exec(t)).Th(t).tmp
    ensures Committed(p, n, run, t) <= i && LastCnt(Stored(p, n, run, t), i) ==> loaded == Stored(p, n, run, t)[i].v
    ensures Committed(p, n, run, t) <= |Stored(p, n, run, t)|
    ensures NoCnt(Stored(p, n, run, t)[Committed(p, n, run, t)..]) ==> loaded == Run(p, n, Init(), run).cnt
  {
    var s := Run(p, n, Init(), run);
    BufferIsRest(p, n, run, t);
    ExecLoads(p, n, s, t);
    CntOfRest(Stored(p, n, run, t), Committed(p, n, run, t), s.cnt);
  }

  lemma CntOfRest(ws: seq<Write>, k: nat, mem: int)
    requires k <= |ws|
    ensures forall i: nat :: LastCnt(ws, i) && i >= k ==> ReadCnt(ws[k..], mem) == ws[i].v
    ensures NoCnt(ws[k..]) ==> ReadCnt(ws[k..], mem) == mem
  {
    LastOfRest(ws, k);
    ReadCntSees(ws[k..], mem);
  }

  /** The same for the load of `turn`, which decides whether the wait goes on. */
  lemma LoadOfTurn(p: Fencing, n: nat, run: seq<Action>, t: Tid, waits: bool, i: nat)
    requires Run(p, n, Init(), run).Th(t).pc.TestTurn?
    requires waits == Step(p, n, Run(p, n, Init(), run), Exec(t)).Th(t).pc.TestFlag?
    ensures Committed(p, n, run, t) <= i && LastTurn(Stored(p, n, run, t), i) ==>
              (waits <==> Stored(p, n, run, t)[i].v == Other(t))
    ensures Committed(p, n, run, t) <= |Stored(p, n, run, t)|
    ensures NoTurn(Stored(p, n, run, t)[Committed(p, n, run, t)..]) ==>
              (waits <==> Run(p, n, Init(), run).turn == Other(t))
  {
    var s := Run(p, n, Init(), run);
    BufferIsRest(p, n, run, t);
    ExecLoads(p, n, s, t);
    TurnOfRest(Stored(p, n, run, t), Committed(p, n, run, t), s.turn);
  }

  lemma TurnOfRest(ws: seq<Write>, k: nat, mem: int)
    requires k <= |ws|
    ensures forall i: nat :: LastTurn(ws, i) && i >= k ==> ReadTurn(ws[k..], mem) == ws[i].v
    ensures NoTurn(ws[k..]) ==> ReadTurn(ws[k..], mem) == mem
  {
    LastOfRest(ws, k);
    ReadTurnSees(ws[k..], mem);
  }

  // ---------------------------------------------------------------------
  // One thread alone
  // ---------------------------------------------------------------------

  predicate AloneRun(run: seq<Action>, t: Tid) { forall k :: 0 <= k < |run| ==> run[k].t == t }

  lemma {:induction false} ReadAfterDrain(buf: seq<Write>, mem: int)
    requires buf != []
    ensures ReadCnt(buf, mem) == ReadCnt(buf[1..], if buf[0].WCnt? then buf[0].v else mem)
  {
    if |buf| > 1 && !buf[|buf| - 1].WCnt? {
      var front := buf[..|buf| - 1];
      ReadAfterDrain(front, mem);
      assert buf[1..][..|buf| - 2] == front[1..];
    } else if |buf| == 1 {
      assert buf[..0] == [] && buf[1..] == [];
    }
  }

  lemma ReadAfterStore(buf: seq<Write>, w: Write, mem: int)
    ensures ReadCnt(buf + [w], mem) == if w.WCnt? then w.v else ReadCnt(buf, mem)
  {
    assert (buf + [w])[..|buf|] == buf;
  }

  /** The thread sees its own increments, and nobody stands in its way. */
  predicate AloneInv(n: nat, me: Thread, otherFlag: bool, cnt: int) {
    && !otherFlag
    && 0 <= me.i <= n
    && (me.pc.End? ==> me.i == n)
    && (!me.pc.Head? && !me.pc.End? ==> me.i < n)
    && ReadCnt(me.buf, cnt) == Issued(me)
    && (me.pc.StoreCnt? ==> me.tmp == me.i)
    && !me.pc.TestTurn?
  }

  /** An instruction changes what the thread sees of `cnt` only by storing it. */
  lemma ViewAfterExec(p: Fencing, n: nat, t: Tid, me: Thread, otherFlag: bool, turn: int, cnt: int)
    ensures ReadCnt(ExecThread(p, n, t, me, otherFlag, turn, cnt).buf, cnt)
            == if me.pc.StoreCnt? then me.tmp + 1 else ReadCnt(me.buf, cnt)
  {
    var me' := ExecThread(p, n, t, me, otherFlag, turn, cnt);
    if StoreOf(t, me) == [] {
      assert me'.buf == me.buf;
    } else {
      var w := StoreOf(t, me)[0];
      assert me'.buf == me.buf + [w];
      ReadAfterStore(me.buf, w, cnt);
    }
  }

  lemma AloneExec(p: Fencing, n: nat, t: Tid, me: Thread, turn: int, cnt: int)
    requires AloneInv(n, me, false, cnt)
    ensures AloneInv(n, ExecThread(p, n, t, me, false, turn, cnt), false, cnt)
  {
    ViewAfterExec(p, n, t, me, false, turn, cnt);
  }

  lemma AloneDrain(n: nat, me: Thread, cnt: int)
    requires AloneInv(n, me, false, cnt) && me.buf != []
    ensures AloneInv(n, me.(buf := me.buf[1..]), false, if me.buf[0].WCnt? then me.buf[0].v else cnt)
  {
    ReadAfterDrain(me.buf, cnt);
  }

  lemma AloneStep(p: Fencing, n: nat, s: State, a: Action)
    requires AloneInv(n, s.Th(a.t), s.Flag(Other(a.t)), s.cnt)
    ensures var s' := Step(p, n, s, a); AloneInv(n, s'.Th(a.t), s'.Flag(Other(a.t)), s'.cnt)
  {
    var me := s.Th(a.t);
    if a.Exec? {
      AloneExec(p, n, a.t, me, s.turn, s.cnt);
      ExecLeavesMemory(p, n, s, a.t);
    } else if me.buf != [] {
      AloneDrain(n, me, s.cnt);
    }
  }

  lemma {:induction false} AloneRunKeepsInv(p: Fencing, n: nat, run: seq<Action>, t: Tid)
    requires AloneRun(run, t)
    ensures var s := Run(p, n, Init(), run); AloneInv(n, s.Th(t), s.Flag(Other(t)), s.cnt)
  {
    if run != [] {
      AloneRunKeepsInv(p, n, run[..|run| - 1], t);
      AloneStep(p, n, Run(p, n, Init(), run[..|run| - 1]), run[|run| - 1]);
    }
  }

  /** With any fences or none, a thread that runs alone counts right: memory has all its increments once
      its buffer is empty, and `n` when it has ended. */
  lemma AloneCountsRight(p: Fencing, n: nat, run: seq<Action>, t: Tid)
    requires AloneRun(run, t)
    ensures var s := Run(p, n, Init(), run);
            var me := s.Th(t);
            && (me.buf == [] ==> s.cnt == Issued(me))
            && (me.buf == [] && me.pc.End? ==> s.cnt == n)
  {
    AloneRunKeepsInv(p, n, run, t);
  }

  // ---------------------------------------------------------------------
  // The fence of the source
  // ---------------------------------------------------------------------

  /** The thread's flag as its own stores leave it. */
  function OwnFlag(buf: seq<Write>, mem: bool): bool {
    if buf == [] then mem
    else if buf[|buf| - 1].WFlag? then buf[|buf| - 1].b
    else OwnFlag(buf[..|buf| - 1], mem)
  }

  predicate PastFence(pc: Pc) { pc.GiveTurn? || Waiting(pc) || InCs(pc) }

  predicate FenceInv(me: Thread, flag: bool) {
    && (me.pc.Fence1? ==> OwnFlag(me.buf, flag))
    && (PastFence(me.pc) ==> flag && forall j :: 0 <= j < |me.buf| ==> !me.buf[j].WFlag?)
    && !me.pc.Fence2?
  }

  lemma {:induction false} FlagAfterDrain(buf: seq<Write>, mem: bool)
    requires buf != []
    ensures OwnFlag(buf, mem) == OwnFlag(buf[1..], if buf[0].WFlag? then buf[0].b else mem)
  {
    if |buf| > 1 && !buf[|buf| - 1].WFlag? {
      var front := buf[..|buf| - 1];
      FlagAfterDrain(front, mem);
      assert buf[1..][..|buf| - 2] == front[1..];
    } else if |buf| == 1 {
      assert buf[..0] == [] && buf[1..] == [];
    }
  }

  lemma FenceExec(n: nat, t: Tid, me: Thread, flag: bool, otherFlag: bool, turn: int, cnt: int)
    requires FenceInv(me, flag)
    ensures FenceInv(ExecThread(FenceBeforeTurn, n, t, me, otherFlag, turn, cnt), flag)
  {
  }

  lemma FenceDrain(me: Thread, flag: bool)
    requires FenceInv(me, flag) && me.buf != []
    ensures FenceInv(me.(buf := me.buf[1..]), if me.buf[0].WFlag? then me.buf[0].b else flag)
  {
    FlagAfterDrain(me.buf, flag);
  }

  lemma FenceStep(n: nat, s: State, a: Action)
    requires FenceInv(s.Th(a.t), s.Flag(a.t))
    ensures var s' := Step(FenceBeforeTurn, n, s, a); FenceInv(s'.Th(a.t), s'.Flag(a.t))
  {
    var me := s.Th(a.t);
    if a.Exec? {
      FenceExec(n, a.t, me, s.Flag(a.t), s.Flag(Other(a.t)), s.turn, s.cnt);
      ExecLeavesMemory(FenceBeforeTurn, n, s, a.t);
    } else if me.buf != [] {
      FenceDrain(me, s.Flag(a.t));
    }
  }

  lemma OtherUntouched(p: Fencing, n: nat, s: State, a: Action)
    ensures var s', o := Step(p, n, s, a), Other(a.t); s'.Th(o) == s.Th(o) && s'.Flag(o) == s.Flag(o)
  {
  }

  lemma {:induction false} FenceRunKeepsInv(n: nat, run: seq<Action>, t: Tid)
    ensures var s := Run(FenceBeforeTurn, n, Init(), run); FenceInv(s.Th(t), s.Flag(t))
  {
    if run != [] {
      var before, a := run[..|run| - 1], run[|run| - 1];
      var s := Run(FenceBeforeTurn, n, Init(), before);
      FenceRunKeepsInv(n, before, t);
      if a.t == t {
        FenceStep(n, s, a);
      } else {
        assert t == Other(a.t);
        OtherUntouched(FenceBeforeTurn, n, s, a);
      }
    }
  }

  /** In every run of the fenced program, a thread from its turn store up to lowering its flag has the flag up in
      memory: the fence does publish the flag store, and it is the turn store that it leaves open. */
  lemma FencePublishesFlag(n: nat, run: seq<Action>, t: Tid)
    requires PastFence(Run(FenceBeforeTurn, n, Init(), run).Th(t).pc)
    ensures Run(FenceBeforeTurn, n, Init(), run).Flag(t)
  {
    FenceRunKeepsInv(n, run, t);
  }
}

/**
 What the protocol buffer promises: a byte stream with a fixed capacity, and on
 top of it a queue of typed values and raw runs of bytes.
 */
module ProtocolStream {
  import opened Options
  import opened Modular
  import opened LittleEndian

  /** The bytes accepted since the last Clear, and how many of them have been taken out again. */
  datatype Stream = Stream(capacity: nat, written: seq<byte>, read: nat) {
    predicate Valid() { read <= |written| <= capacity }

    function Unread(): seq<byte>
      requires Valid()
    {
      written[read..]
    }
  }

  function Cleared(s: Stream): Stream { s.(written := [], read := 0) }

  predicate Fits(s: Stream, size: nat) { |s.written| + size <= s.capacity }

  function PutBytes(s: Stream, b: seq<byte>): (s': Stream)
    requires s.Valid()
    ensures s'.Valid()
  {
    if Fits(s, |b|) then s.(written := s.written + b) else s
  }

  predicate HasBytes(s: Stream, size: nat) { s.read + size <= |s.written| }

  function TakeBytes(s: Stream, size: nat): (r: (Stream, Option<seq<byte>>))
    requires s.Valid()
    ensures r.0.Valid()
  {
    if HasBytes(s, size)
    then (s.(read := s.read + size), Some(s.written[s.read..s.read + size]))
    else (s, None)
  }

  // ---------------------------------------------------------------------
  // Bytes: first in, first out, nothing lost
  // ---------------------------------------------------------------------

  datatype ByteOp = Put(b: seq<byte>) | Get(size: nat) | Clear

  function ByteStep(s: Stream, op: ByteOp): (s': Stream)
    requires s.Valid()
    ensures s'.Valid()
  {
    match op
    case Put(b) => PutBytes(s, b)
    case Get(size) => TakeBytes(s, size).0
    case Clear => Cleared(s)
  }

  function ByteRun(s: Stream, ops: seq<ByteOp>): (s': Stream)
    requires s.Valid()
    ensures s'.Valid()
  {
    if ops == [] then s else ByteStep(ByteRun(s, ops[..|ops| - 1]), ops[|ops| - 1])
  }

  /** The caller's side of one operation: bytes handed over and not refused, and bytes got back. */
  function AcceptedBy(s: Stream, op: ByteOp): seq<byte> {
    if op.Put? && Fits(s, |op.b|) then op.b else []
  }

  function ReturnedBy(s: Stream, op: ByteOp): seq<byte>
    requires s.Valid()
  {
    if op.Get? && TakeBytes(s, op.size).1.Some? then TakeBytes(s, op.size).1.value else []
  }

  /** All bytes handed over, and got back, since the last Clear. */
  function Accepted(s: Stream, ops: seq<ByteOp>): seq<byte>
    requires s.Valid()
  {
    if ops == [] || ops[|ops| - 1].Clear? then []
    else Accepted(s, ops[..|ops| - 1]) + AcceptedBy(ByteRun(s, ops[..|ops| - 1]), ops[|ops| - 1])
  }

  function Returned(s: Stream, ops: seq<ByteOp>): seq<byte>
    requires s.Valid()
  {
    if ops == [] || ops[|ops| - 1].Clear? then []
    else Returned(s, ops[..|ops| - 1]) + ReturnedBy(ByteRun(s, ops[..|ops| - 1]), ops[|ops| - 1])
  }

  lemma StepIsFifo(s: Stream, op: ByteOp)
    requires s.Valid() && !op.Clear?
    ensures ByteStep(s, op).written == s.written + AcceptedBy(s, op)
    ensures var s' := ByteStep(s, op); s'.written[..s'.read] == s.written[..s.read] + ReturnedBy(s, op)
  {
    var s' := ByteStep(s, op);
    if op.Get? && HasBytes(s, op.size) {
      assert s.written[..s'.read] == s.written[..s.read] + s.written[s.read..s'.read];
    } else {
      assert s'.read == s.read;
    }
  }

  lemma {:induction false} LogsFollowStream(capacity: nat, ops: seq<ByteOp>)
    ensures var s0 := Stream(capacity, [], 0);
            var s := ByteRun(s0, ops);
            && s.capacity == capacity
            && s.written == Accepted(s0, ops)
            && s.written[..s.read] == Returned(s0, ops)
  {
    if ops != [] {
      LogsFollowStream(capacity, ops[..|ops| - 1]);
      if !ops[|ops| - 1].Clear? {
        StepIsFifo(ByteRun(Stream(capacity, [], 0), ops[..|ops| - 1]), ops[|ops| - 1]);
      }
    }
  }

  /** For every interleaving: returned bytes, then the unread ones, are the accepted ones in order;
      free, unread and returned room add up to the capacity. */
  lemma BytesAreFifo(capacity: nat, ops: seq<ByteOp>)
    ensures var s0 := Stream(capacity, [], 0);
            var s := ByteRun(s0, ops);
            && Returned(s0, ops) + s.Unread() == Accepted(s0, ops)
            && (capacity - |s.written|) + |s.Unread()| + |Returned(s0, ops)| == capacity
  {
    LogsFollowStream(capacity, ops);
    SplitAtRead(ByteRun(Stream(capacity, [], 0), ops));
  }

  lemma SplitAtRead(s: Stream)
    requires s.Valid()
    ensures s.written[..s.read] + s.Unread() == s.written
  {
  }

  // ---------------------------------------------------------------------
  // Typed values
  // ---------------------------------------------------------------------

  /** The twelve operand types. A float or double is taken as its bit pattern. */
  datatype Kind =
    | Char | UChar | Short | UShort | Int | UInt | Long | ULong | LongLong | ULongLong | Float | Double

  function Size(k: Kind): (w: nat)
    ensures w > 0
  {
    match k
    case Char => 1
    case UChar => 1
    case Short => 2
    case UShort => 2
    case Int => 4
    case UInt => 4
    case Long => 4
    case ULong => 4
    case Float => 4
    case LongLong => 8
    case ULongLong => 8
    case Double => 8
  }

  predicate IsSigned(k: Kind) { k.Char? || k.Short? || k.Int? || k.Long? || k.LongLong? }

  datatype Value = Value(kind: Kind, n: int) {
    /** The values of the type, on Windows: a `long` has 32 bits, a `char` is signed. */
    predicate Valid() {
      match kind
      case Char => -0x80 <= n < 0x80
      case UChar => 0 <= n < 0x100
      case Short => -0x8000 <= n < 0x8000
      case UShort => 0 <= n < 0x1_0000
      case Int => -0x8000_0000 <= n < 0x8000_0000
      case UInt => 0 <= n < 0x1_0000_0000
      case Long => -0x8000_0000 <= n < 0x8000_0000
      case ULong => 0 <= n < 0x1_0000_0000
      case Float => 0 <= n < 0x1_0000_0000
      case LongLong => -0x8000_0000_0000_0000 <= n < 0x8000_0000_0000_0000
      case ULongLong => 0 <= n < 0x1_0000_0000_0000_0000
      case Double => 0 <= n < 0x1_0000_0000_0000_0000
    }
  }

  /** The object representation that memmove copies. */
  function Encode(v: Value): (b: seq<byte>)
    ensures |b| == Size(v.kind)
  {
    ToBytes(Pattern(v.n, Size(v.kind)), Size(v.kind))
  }

  function Decode(k: Kind, b: seq<byte>): Value
    requires |b| == Size(k)
  {
    Value(k, if IsSigned(k) then Signed(FromBytes(b), Size(k)) else FromBytes(b))
  }

  /** The ranges of the types are those that the bytes copied can tell apart. */
  lemma ValidFitsSize(v: Value)
    ensures v.Valid() <==>
              if IsSigned(v.kind) then InSignedRange(v.n, Size(v.kind)) else 0 <= v.n < Pow256(Size(v.kind))
  {
    Powers();
  }

  /** A value comes back from its bytes exactly when it is a value of its type. */
  lemma DecodeEncode(v: Value)
    ensures Decode(v.kind, Encode(v)) == v <==> v.Valid()
  {
    ValidFitsSize(v);
    var w := Size(v.kind);
    var u := Pattern(v.n, w);
    LoadAfterStore(u, w);
    ModUnique(u, Pow256(w), 0, u);
    SignedAfterPattern(v.n, w);
    if 0 <= v.n < Pow256(w) { ModUnique(v.n, Pow256(w), 0, v.n); }
  }

  /** Every byte string of the right length is the representation of exactly the value read from it. */
  lemma EncodeDecode(k: Kind, b: seq<byte>)
    requires |b| == Size(k)
    ensures Encode(Decode(k, b)) == b
  {
    PatternAfterSigned(FromBytes(b), Size(k));
    ModUnique(FromBytes(b), Pow256(Size(k)), 0, FromBytes(b));
    StoreAfterLoad(b);
  }

  // ---------------------------------------------------------------------
  // A queue of typed values and raw runs
  // ---------------------------------------------------------------------

  /** What one operation writes: a typed value, or a run of bytes or characters without a terminator. */
  datatype Item = Typed(v: Value) | Raw(b: seq<byte>) {
    predicate Valid() { Typed? ==> v.Valid() }

    function Shape(): Shape { if Typed? then Of(v.kind) else RunOf(|b|) }

    function Bytes(): (r: seq<byte>)
      ensures |r| == Shape().Room()
    {
      if Typed? then Encode(v) else b
    }
  }

  /** What a reader asks for: a value of a type, or a number of bytes. */
  datatype Shape = Of(k: Kind) | RunOf(size: nat) {
    function Room(): nat { if Of? then Size(k) else size }

    function Parse(b: seq<byte>): Item
      requires |b| == Room()
    {
      if Of? then Typed(Decode(k, b)) else Raw(b)
    }
  }

  lemma ParseBytes(x: Item)
    requires x.Valid()
    ensures x.Shape().Parse(x.Bytes()) == x
  {
    if x.Typed? { DecodeEncode(x.v); }
  }

  function BytesOfAll(xs: seq<Item>): seq<byte> { if xs == [] then [] else xs[0].Bytes() + BytesOfAll(xs[1..]) }

  predicate AllValid(xs: seq<Item>) { forall i :: 0 <= i < |xs| ==> xs[i].Valid() }

  lemma {:induction false} BytesOfAppend(xs: seq<Item>, x: Item)
    ensures BytesOfAll(xs + [x]) == BytesOfAll(xs) + x.Bytes()
  {
    if xs == [] {
      assert [x][1..] == [];
    } else {
      assert (xs + [x])[1..] == xs[1..] + [x];
      BytesOfAppend(xs[1..], x);
    }
  }

  datatype Op = Write(x: Item) | Read(shape: Shape) | Reset

  /** The observable result of an operation: a write was accepted or refused, a read gave an item or none. */
  datatype Outcome = Wrote(ok: bool) | Got(r: Option<Item>) | Done

  function StreamStep(s: Stream, op: Op): (r: (Stream, Outcome))
    requires s.Valid()
    ensures r.0.Valid()
  {
    match op
    case Write(x) => (PutBytes(s, x.Bytes()), Wrote(Fits(s, |x.Bytes()|)))
    case Read(shape) =>
      var (s', b) := TakeBytes(s, shape.Room());
      (s', Got(if b.Some? then Some(shape.Parse(b.value)) else None))
    case Reset => (Cleared(s), Done)
  }

  /** The reference: a queue of items that charges each accepted item its size until it is reset. */
  datatype Queue = Queue(capacity: nat, charged: nat, pending: seq<Item>)

  function QueueStep(q: Queue, op: Op): (Queue, Outcome) {
    match op
    case Write(x) =>
      if q.charged + x.Shape().Room() <= q.capacity
      then (Queue(q.capacity, q.charged + x.Shape().Room(), q.pending + [x]), Wrote(true))
      else (q, Wrote(false))
    case Read(shape) =>
      if q.pending != [] then (q.(pending := q.pending[1..]), Got(Some(q.pending[0])))
      else (q, Got(if shape == RunOf(0) then Some(Raw([])) else None))
    case Reset => (Queue(q.capacity, 0, []), Done)
  }

  /** Values of their types are written, and a read asks for the type or the length of the oldest pending item. */
  predicate Matched(q: Queue, op: Op) {
    match op
    case Write(x) => x.Valid()
    case Read(shape) => q.pending != [] ==> q.pending[0].Shape() == shape
    case Reset => true
  }

  predicate Simulates(s: Stream, q: Queue) {
    && s.Valid()
    && s.capacity == q.capacity
    && |s.written| == q.charged
    && s.Unread() == BytesOfAll(q.pending)
    && AllValid(q.pending)
  }

  /** Reading with the shape of the oldest item gives that item and leaves the bytes behind it. */
  lemma ReadOne(s: Stream, x: Item, rest: seq<byte>)
    requires s.Valid() && x.Valid() && s.Unread() == x.Bytes() + rest
    ensures s.read + |x.Bytes()| <= |s.written|
    ensures var s' := s.(read := s.read + |x.Bytes()|);
            StreamStep(s, Read(x.Shape())) == (s', Got(Some(x))) && s'.Unread() == rest
  {
    var b, w := x.Bytes(), |x.Bytes()|;
    assert s.written[s.read..s.read + w] == s.Unread()[..w] == b;
    assert s.written[s.read + w..] == s.Unread()[w..] == rest;
    ParseBytes(x);
  }

  /** With nothing unread only a run of no bytes is read. */
  lemma ReadNothing(s: Stream, shape: Shape)
    requires s.Valid() && s.Unread() == []
    ensures StreamStep(s, Read(shape)) == (s, Got(if shape == RunOf(0) then Some(Raw([])) else None))
  {
    assert |s.Unread()| == |s.written| - s.read;
    assert s.written[s.read..s.read] == [];
  }

  lemma StepSimulates(s: Stream, q: Queue, op: Op)
    requires Simulates(s, q) && Matched(q, op)
    ensures Simulates(StreamStep(s, op).0, QueueStep(q, op).0)
    ensures StreamStep(s, op).1 == QueueStep(q, op).1
  {
    match op
    case Write(x) =>
      BytesOfAppend(q.pending, x);
      assert Fits(s, |x.Bytes()|) ==> (s.written + x.Bytes())[s.read..] == s.Unread() + x.Bytes();
    case Read(shape) =>
      if q.pending != [] {
        ReadOne(s, q.pending[0], BytesOfAll(q.pending[1..]));
      } else {
        ReadNothing(s, shape);
      }
    case Reset =>
  }

  function StreamRun(s: Stream, ops: seq<Op>): (r: (Stream, seq<Outcome>))
    requires s.Valid()
    ensures r.0.Valid()
  {
    if ops == [] then (s, [])
    else
      var (s1, outs) := StreamRun(s, ops[..|ops| - 1]);
      var (s2, out) := StreamStep(s1, ops[|ops| - 1]);
      (s2, outs + [out])
  }

  function QueueRun(q: Queue, ops: seq<Op>): (Queue, seq<Outcome>) {
    if ops == [] then (q, [])
    else
      var (q1, outs) := QueueRun(q, ops[..|ops| - 1]);
      var (q2, out) := QueueStep(q1, ops[|ops| - 1]);
      (q2, outs + [out])
  }

  predicate MatchedRun(q: Queue, ops: seq<Op>) {
    ops != [] ==> MatchedRun(q, ops[..|ops| - 1]) && Matched(QueueRun(q, ops[..|ops| - 1]).0, ops[|ops| - 1])
  }

  lemma {:induction false} RunSimulates(s: Stream, q: Queue, ops: seq<Op>)
    requires Simulates(s, q) && MatchedRun(q, ops)
    ensures Simulates(StreamRun(s, ops).0, QueueRun(q, ops).0) && StreamRun(s, ops).1 == QueueRun(q, ops).1
  {
    if ops != [] {
      var before, op := ops[..|ops| - 1], ops[|ops| - 1];
      RunSimulates(s, q, before);
      StepSimulates(StreamRun(s, before).0, QueueRun(q, before).0, op);
    }
  }

  /** Every interleaving of typed and raw writes, matching reads and Clear behaves like the queue, refusals included. */
  lemma BufferIsTypedQueue(capacity: nat, ops: seq<Op>)
    requires MatchedRun(Queue(capacity, 0, []), ops)
    ensures var s := StreamRun(Stream(capacity, [], 0), ops);
            var q := QueueRun(Queue(capacity, 0, []), ops);
            Simulates(s.0, q.0) && s.1 == q.1
  {
    RunSimulates(Stream(capacity, [], 0), Queue(capacity, 0, []), ops);
  }

  /** The bytes that one operator moves. */
  predicate Moves(k: Kind, bytes: nat) {
    match bytes
    case 1 => k.Char? || k.UChar?
    case 2 => k.Short? || k.UShort?
    case 4 => k.Int? || k.UInt? || k.Long? || k.ULong? || k.Float?
    case 8 => k.LongLong? || k.ULongLong? || k.Double?
    case _ => false
  }

  /** One `<<` and one `>>` of the same type: each moves 1, 2, 4 or 8 bytes, the write is accepted exactly when these
      are free, and it is the value written that is read, if and only if it lies in the range of its type. */
  lemma InsertThenExtract(s: Stream, v: Value, bytes: nat)
    requires s.Valid() && s.Unread() == [] && Moves(v.kind, bytes)
    ensures var (s1, out1) := StreamStep(s, Write(Typed(v)));
            var (s2, out2) := StreamStep(s1, Read(Of(v.kind)));
            && out1 == Wrote(|s.written| + bytes <= s.capacity)
            && (out1.ok ==> |s1.written| == |s.written| + bytes && s2.read == s.read + bytes)
            && (out1.ok ==> (out2 == Got(Some(Typed(v))) <==> v.Valid()))
            && (!out1.ok ==> s1 == s && out2 == Got(None))
  {
    var b := Encode(v);
    WidthOf(v.kind, bytes);
    if Fits(s, bytes) {
      TakeLast(s, PutBytes(s, b), b);
      DecodeEncode(v);
    } else {
      assert |s.Unread()| == |s.written| - s.read;
    }
  }

  lemma WidthOf(k: Kind, bytes: nat)
    ensures Moves(k, bytes) <==> bytes == Size(k)
  {
  }

  lemma TakeLast(s: Stream, s1: Stream, b: seq<byte>)
    requires s.Valid() && s.Unread() == [] && s1.Valid() && s1 == s.(written := s.written + b)
    ensures TakeBytes(s1, |b|) == (s1.(read := s1.read + |b|), Some(b))
  {
    assert |s.Unread()| == |s.written| - s.read;
    assert s1.written[s.read..s.read + |b|] == b;
  }

  // ---------------------------------------------------------------------
  // Round trip of a list of items
  // ---------------------------------------------------------------------

  /** All items written in order, then all read in order with their types and lengths. */
  function WriteThenRead(xs: seq<Item>): (ops: seq<Op>)
    ensures |ops| == 2 * |xs|
  {
    seq(2 * |xs|, i requires 0 <= i < 2 * |xs| => if i < |xs| then Write(xs[i]) else Read(xs[i - |xs|].Shape()))
  }

  /** Every write accepted, and every item back. */
  function AllBack(xs: seq<Item>): (outs: seq<Outcome>)
    ensures |outs| == 2 * |xs|
  {
    seq(2 * |xs|, i requires 0 <= i < 2 * |xs| => if i < |xs| then Wrote(true) else Got(Some(xs[i - |xs|])))
  }

  lemma {:induction false} PrefixTakesLess(xs: seq<Item>, i: nat)
    requires i <= |xs|
    ensures |BytesOfAll(xs[..i])| <= |BytesOfAll(xs)|
    decreases |xs|
  {
    if i < |xs| {
      var front := xs[..|xs| - 1];
      PrefixTakesLess(front, i);
      BytesOfAppend(front, xs[|xs| - 1]);
      assert front + [xs[|xs| - 1]] == xs && front[..i] == xs[..i];
    } else {
      assert xs[..i] == xs;
    }
  }

  /** What the queue has after the first `i` of these operations. */
  function Held(q: Queue, xs: seq<Item>, i: nat): Queue
    requires i <= 2 * |xs|
  {
    if i <= |xs| then Queue(q.capacity, q.charged + |BytesOfAll(xs[..i])|, xs[..i])
    else Queue(q.capacity, q.charged + |BytesOfAll(xs)|, xs[i - |xs|..])
  }

  predicate Suits(q: Queue, xs: seq<Item>) {
    q.pending == [] && q.charged + |BytesOfAll(xs)| <= q.capacity && AllValid(xs)
  }

  lemma WriteHeld(q: Queue, xs: seq<Item>, i: nat)
    requires Suits(q, xs) && i < |xs|
    ensures QueueStep(Held(q, xs, i), Write(xs[i])) == (Held(q, xs, i + 1), Wrote(true))
  {
    assert xs[..i + 1] == xs[..i] + [xs[i]];
    BytesOfAppend(xs[..i], xs[i]);
    PrefixTakesLess(xs, i + 1);
  }

  lemma ReadHeld(q: Queue, xs: seq<Item>, i: nat)
    requires Suits(q, xs) && i < |xs|
    ensures Held(q, xs, i + |xs|).pending == xs[i..]
    ensures QueueStep(Held(q, xs, i + |xs|), Read(xs[i].Shape())) == (Held(q, xs, i + 1 + |xs|), Got(Some(xs[i])))
  {
    assert xs[..|xs|] == xs == xs[0..];
    assert xs[i..][1..] == xs[i + 1..];
  }

  lemma StepHeld(q: Queue, xs: seq<Item>, i: nat)
    requires Suits(q, xs) && i < 2 * |xs|
    ensures var op := WriteThenRead(xs)[i];
            Matched(Held(q, xs, i), op) && QueueStep(Held(q, xs, i), op) == (Held(q, xs, i + 1), AllBack(xs)[i])
  {
    if i < |xs| { WriteHeld(q, xs, i); } else { ReadHeld(q, xs, i - |xs|); }
  }

  /** A run is known from a path of states that fits every operation. */
  lemma {:induction false} RunFollowsPath(path: seq<Queue>, ops: seq<Op>, outs: seq<Outcome>)
    requires |path| == |ops| + 1 && |outs| == |ops|
    requires forall i :: 0 <= i < |ops| ==>
               Matched(path[i], ops[i]) && QueueStep(path[i], ops[i]) == (path[i + 1], outs[i])
    ensures MatchedRun(path[0], ops) && QueueRun(path[0], ops) == (path[|ops|], outs)
  {
    if ops != [] {
      var n := |ops| - 1;
      RunFollowsPath(path[..n + 1], ops[..n], outs[..n]);
      assert outs[..n] + [outs[n]] == outs;
    } else {
      assert outs == [];
    }
  }

  lemma QueueHolds(q: Queue, xs: seq<Item>)
    requires Suits(q, xs)
    ensures MatchedRun(q, WriteThenRead(xs))
    ensures QueueRun(q, WriteThenRead(xs)) == (Held(q, xs, 2 * |xs|), AllBack(xs))
  {
    var ops, outs := WriteThenRead(xs), AllBack(xs);
    var path := seq(2 * |xs| + 1, i requires 0 <= i <= 2 * |xs| => Held(q, xs, i));
    forall i | 0 <= i < |ops|
      ensures Matched(path[i], ops[i]) && QueueStep(path[i], ops[i]) == (path[i + 1], outs[i])
    {
      StepHeld(q, xs, i);
    }
    assert path[0] == q;
    RunFollowsPath(path, ops, outs);
  }

  /** Any list of items that fits, written behind what has been read, comes back whole and leaves nothing unread. */
  lemma ValuesRoundTrip(s: Stream, xs: seq<Item>)
    requires s.Valid() && Fits(s, |BytesOfAll(xs)|) && s.Unread() == [] && AllValid(xs)
    ensures var r := StreamRun(s, WriteThenRead(xs)); r.1 == AllBack(xs) && r.0.Unread() == []
  {
    var q := Queue(s.capacity, |s.written|, []);
    QueueHolds(q, xs);
    RunSimulates(s, q, WriteThenRead(xs));
    assert Held(q, xs, 2 * |xs|).pending == [];
  }
}

/** The buffer itself: a fixed byte array and two cursors that only these methods move. */
module ProtocolBuffer {
  import opened Options
  import opened LittleEndian
  import opened ProtocolStream

  /** Length of the string before its terminator. */
  function StrLen(str: seq<int>): (n: nat)
    requires 0 in str
    ensures n < |str| && str[n] == 0 && forall k :: 0 <= k < n ==> str[k] != 0
  {
    if str[0] == 0 then 0 else 1 + StrLen(str[1..])
  }

  /** The object representation of `count` wide characters, two bytes each. */
  function WideBytes(str: seq<nat>): (b: seq<byte>)
    ensures |b| == 2 * |str|
  {
    if str == [] then [] else ToBytes(str[0], 2) + WideBytes(str[1..])
  }

  /** Each wide character occupies its own two bytes, low byte first. */
  lemma {:induction false} WideBytesAt(str: seq<nat>, k: nat)
    requires k < |str|
    ensures FromBytes(WideBytes(str)[2 * k..2 * k + 2]) == str[k] % 0x1_0000
  {
    var first := ToBytes(str[0], 2);
    assert WideBytes(str) == first + WideBytes(str[1..]);
    if k == 0 {
      assert WideBytes(str)[0..2] == first;
      LoadAfterStore(str[0], 2);
      Powers();
    } else {
      WideBytesAt(str[1..], k - 1);
      assert WideBytes(str)[2 * k..2 * k + 2] == WideBytes(str[1..])[2 * (k - 1)..2 * (k - 1) + 2];
    }
  }

  class Buffer {
    const bufSize: nat
    var data: array<byte>
    var writePos: int
    var readPos: int

    ghost predicate Valid()
      reads this
    {
      data.Length == bufSize && 0 <= readPos <= writePos <= bufSize
    }

    ghost function Abs(): Stream
      reads this, data
      requires Valid()
      ensures Abs().Valid()
    {
      Stream(bufSize, data[..writePos], readPos)
    }

    constructor (size: nat)
      ensures Valid() && fresh(data) && bufSize == size
      ensures Abs() == Stream(size, [], 0)
    {
      bufSize := size;
      data := new byte[size];
      writePos, readPos := 0, 0;
    }

    method Clear()
      requires Valid()
      modifies this
      ensures Valid() && data == old(data) && Abs() == Cleared(old(Abs()))
    {
      writePos, readPos := 0, 0;
    }

    method Empty() returns (b: bool)
      requires Valid()
      ensures b <==> Abs().Unread() == []
    {
      b := writePos <= readPos;
    }

    method FreeSize() returns (n: int)
      requires Valid()
      ensures forall size: nat :: Fits(Abs(), size) <==> size <= n
    {
      n := bufSize - writePos;
    }

    method UseSize() returns (n: int)
      requires Valid()
      ensures n == |Abs().Unread()|
    {
      n := writePos - readPos;
    }

    /** `throw` is modelled as a refusal that leaves the state alone. */
    method PutData(src: seq<byte>) returns (ok: bool)
      requires Valid()
      modifies this`writePos, data
      ensures Valid() && Abs() == PutBytes(old(Abs()), src)
      ensures ok == Fits(old(Abs()), |src|)
      ensures !ok ==> data[..] == old(data[..]) && writePos == old(writePos)
    {
      ok := writePos + |src| <= data.Length;
      if ok {
        ghost var before := data[..writePos];
        forall i | 0 <= i < |src| { data[writePos + i] := src[i]; }
        assert data[..writePos] == before;
        writePos := writePos + |src|;
        assert data[..writePos] == before + src;
      }
    }

    method GetData(size: nat) returns (r: Option<seq<byte>>)
      requires Valid()
      modifies this`readPos
      ensures Valid() && (Abs(), r) == TakeBytes(old(Abs()), size)
    {
      if readPos + size <= writePos {
        r := Some(data[readPos..readPos + size]);
        assert data[..writePos][readPos..readPos + size] == data[readPos..readPos + size];
        readPos := readPos + size;
      } else {
        r := None;
      }
    }

    /** The twelve operators <<, which differ in the operand type only. */
    method Insert(v: Value) returns (ok: bool)
      requires Valid()
      modifies this`writePos, data
      ensures Valid() && (Abs(), Wrote(ok)) == StreamStep(old(Abs()), Write(Typed(v)))
      ensures ok ==> Moves(v.kind, writePos - old(writePos))
    {
      ok := PutData(Encode(v));
    }

    /** The twelve operators >>. */
    method Extract(k: Kind) returns (r: Option<Item>)
      requires Valid()
      modifies this`readPos
      ensures Valid() && (Abs(), Got(r)) == StreamStep(old(Abs()), Read(Of(k)))
      ensures r.Some? ==> r.value.Typed? && Moves(k, readPos - old(readPos))
    {
      var b := GetData(Size(k));
      r := if b.Some? then Some(Typed(Decode(k, b.value))) else None;
    }

    /** The string operators copy the characters without the terminator. */
    method InsertString(str: seq<byte>) returns (ok: bool)
      requires Valid() && 0 in str
      modifies this`writePos, data
      ensures Valid() && Abs() == PutBytes(old(Abs()), str[..StrLen(str)])
      ensures ok == Fits(old(Abs()), StrLen(str))
    {
      ok := PutData(str[..StrLen(str)]);
    }

    method InsertWide(str: seq<nat>) returns (ok: bool)
      requires Valid() && 0 in str
      modifies this`writePos, data
      ensures Valid() && Abs() == PutBytes(old(Abs()), WideBytes(str[..StrLen(str)]))
      ensures ok == Fits(old(Abs()), 2 * StrLen(str))
    {
      ok := PutData(WideBytes(str[..StrLen(str)]));
    }

    /** One operation of a packet's writer or reader. */
    method RunOp(op: Op) returns (out: Outcome)
      requires Valid()
      modifies this, data
      ensures Valid() && data == old(data) && (Abs(), out) == StreamStep(old(Abs()), op)
    {
      match op {
        case Write(Typed(v)) => var ok := Insert(v); out := Wrote(ok);
        case Write(Raw(b)) => var ok := PutData(b); out := Wrote(ok);
        case Read(Of(k)) => var r := Extract(k); out := Got(r);
        case Read(RunOf(size)) => var r := GetData(size); out := Got(if r.Some? then Some(Raw(r.value)) else None);
        case Reset => Clear(); out := Done;
      }
    }

    /** Any sequence of operations; on an empty buffer and with matching reads, the outcomes of the queue. */
    method RunOps(ops: seq<Op>) returns (outs: seq<Outcome>)
      requires Valid()
      modifies this, data
      ensures Valid() && (Abs(), outs) == StreamRun(old(Abs()), ops)
      ensures old(Abs()) == Stream(bufSize, [], 0) && MatchedRun(Queue(bufSize, 0, []), ops) ==>
                outs == QueueRun(Queue(bufSize, 0, []), ops).1
    {
      outs := [];
      for i := 0 to |ops|
        invariant Valid() && data == old(data) && (Abs(), outs) == StreamRun(old(Abs()), ops[..i])
      {
        var out := RunOp(ops[i]);
        assert ops[..i + 1][..i] == ops[..i];
        outs := outs + [out];
      }
      assert ops[..|ops|] == ops;
      if MatchedRun(Queue(bufSize, 0, []), ops) { BufferIsTypedQueue(bufSize, ops); }
    }

    /** Moves the cursor without any check: the buffer stays sound exactly within these bounds,
        and then counts the bytes found in the array as written. */
    method MoveWp(size: int)
      requires Valid()
      modifies this`writePos
      ensures Valid() <==> old(readPos) <= old(writePos) + size <= bufSize
      ensures Valid() ==> Abs().written == data[..old(writePos) + size] && Abs().read == old(readPos)
    {
      writePos := writePos + size;
    }

    method MoveRp(size: int)
      requires Valid()
      modifies this`readPos
      ensures Valid() <==> 0 <= old(readPos) + size <= old(writePos)
      ensures Valid() ==> Abs() == old(Abs()).(read := old(readPos) + size)
    {
      readPos := readPos + size;
    }
  }
}

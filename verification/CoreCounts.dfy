/**
 Counting processor cores: one record per core, whose mask has one bit per
 logical processor. Both results are 16-bit counters that wrap.
 */
module CoreCounts {
  import opened Modular

  datatype Record = Record(isCore: bool, mask: nat)

  /** The processors of a mask: the positions of its one bits, here of a mask already shifted by `pos`. */
  function BitsFrom(mask: nat, pos: nat): set<nat> {
    if mask == 0 then {} else (if mask % 2 == 1 then {pos} else {}) + BitsFrom(mask / 2, pos + 1)
  }

  function Bits(mask: nat): set<nat> { BitsFrom(mask, 0) }

  /** Bit number `k`, from the lowest. */
  predicate BitAt(mask: nat, k: nat) { if k == 0 then mask % 2 == 1 else BitAt(mask / 2, k - 1) }

  lemma {:induction false} BitsArePositions(mask: nat, pos: nat, b: nat)
    ensures b in BitsFrom(mask, pos) <==> b >= pos && BitAt(mask, b - pos)
    decreases mask, b
  {
    if mask == 0 {
      if b >= pos { NoBitInZero(b - pos); }
    } else {
      BitsArePositions(mask / 2, pos + 1, b);
    }
  }

  lemma {:induction false} NoBitInZero(k: nat)
    ensures !BitAt(0, k)
  {
    if k > 0 { NoBitInZero(k - 1); }
  }

  lemma BitsOfShift(mask: nat, pos: nat)
    requires mask > 0
    ensures |BitsFrom(mask, pos)| == mask % 2 + |BitsFrom(mask / 2, pos + 1)|
  {
    BitsArePositions(mask / 2, pos + 1, pos);
    assert pos !in BitsFrom(mask / 2, pos + 1);
  }

  function Union(rs: seq<Record>): set<nat> {
    if rs == [] then {}
    else Union(rs[..|rs| - 1]) + if rs[|rs| - 1].isCore then Bits(rs[|rs| - 1].mask) else {}
  }

  function Cores(rs: seq<Record>): nat {
    if rs == [] then 0 else Cores(rs[..|rs| - 1]) + if rs[|rs| - 1].isCore then 1 else 0
  }

  /** The records that describe a core, each counted once. */
  lemma {:induction false} CoresAreRecords(rs: seq<Record>)
    ensures Cores(rs) == |set i | 0 <= i < |rs| && rs[i].isCore|
  {
    if rs != [] {
      var last, front := |rs| - 1, rs[..|rs| - 1];
      var before, all := set i | 0 <= i < |front| && front[i].isCore, set i | 0 <= i < |rs| && rs[i].isCore;
      CoresAreRecords(front);
      assert all == if rs[last].isCore then before + {last} else before;
    }
  }

  /** Bits counted record by record. */
  function BitTotal(rs: seq<Record>): nat {
    if rs == [] then 0
    else BitTotal(rs[..|rs| - 1]) + if rs[|rs| - 1].isCore then |Bits(rs[|rs| - 1].mask)| else 0
  }

  predicate Disjoint(rs: seq<Record>) {
    forall i, j :: 0 <= i < j < |rs| && rs[i].isCore && rs[j].isCore ==> Bits(rs[i].mask) !! Bits(rs[j].mask)
  }

  lemma {:induction false} InUnion(rs: seq<Record>, b: nat)
    ensures b in Union(rs) <==> exists i :: 0 <= i < |rs| && rs[i].isCore && b in Bits(rs[i].mask)
  {
    if rs != [] {
      var front := rs[..|rs| - 1];
      InUnion(front, b);
      if b in Union(front) {
        var i :| 0 <= i < |front| && front[i].isCore && b in Bits(front[i].mask);
        assert rs[i] == front[i];
      }
      if i :| 0 <= i < |rs| && rs[i].isCore && b in Bits(rs[i].mask) {
        assert i < |front| ==> front[i] == rs[i];
      }
    }
  }

  lemma UnionSizes(a: set<nat>, b: set<nat>)
    ensures |a + b| <= |a| + |b|
    ensures |a + b| == |a| + |b| <==> a !! b
  {
    assert a + b == a + (b - a);
    assert |a + b| == |a| + |b - a|;
    assert (b - a) + (a * b) == b;
    assert |b - a| + |a * b| == |b|;
  }

  /** The new record's processors are new exactly when it is disjoint from each earlier one. */
  lemma LastIsDisjoint(rs: seq<Record>)
    requires rs != [] && rs[|rs| - 1].isCore
    ensures Union(rs[..|rs| - 1]) !! Bits(rs[|rs| - 1].mask) <==>
            forall i :: 0 <= i < |rs| - 1 && rs[i].isCore ==> Bits(rs[i].mask) !! Bits(rs[|rs| - 1].mask)
  {
    var front, last := rs[..|rs| - 1], Bits(rs[|rs| - 1].mask);
    forall b: nat | b in last
      ensures b in Union(front) <==> exists i :: 0 <= i < |front| && rs[i].isCore && b in Bits(rs[i].mask)
    {
      InUnion(front, b);
      if i :| 0 <= i < |front| && rs[i].isCore && b in Bits(rs[i].mask) { assert front[i] == rs[i]; }
    }
  }

  lemma DisjointSplits(rs: seq<Record>)
    requires rs != []
    ensures Disjoint(rs) <==>
            && Disjoint(rs[..|rs| - 1])
            && (rs[|rs| - 1].isCore ==>
                  forall i :: 0 <= i < |rs| - 1 && rs[i].isCore ==> Bits(rs[i].mask) !! Bits(rs[|rs| - 1].mask))
  {
    var front := rs[..|rs| - 1];
    assert forall i :: 0 <= i < |front| ==> front[i] == rs[i];
  }

  /** Counting record by record counts each processor of the union once exactly when no two cores share one. */
  lemma {:induction false} TotalIsUnionExactly(rs: seq<Record>)
    ensures |Union(rs)| <= BitTotal(rs)
    ensures BitTotal(rs) == |Union(rs)| <==> Disjoint(rs)
  {
    if rs != [] {
      var front, last := rs[..|rs| - 1], rs[|rs| - 1];
      TotalIsUnionExactly(front);
      DisjointSplits(rs);
      if last.isCore {
        LastIsDisjoint(rs);
        UnionSizes(Union(front), Bits(last.mask));
      }
    }
  }

  /** Addition on a WORD. */
  function Add16(c: nat, x: nat): (r: nat)
    ensures r < TWO16
  {
    (c + x) % TWO16
  }

  lemma AddTwice(c: nat, x: nat, y: nat)
    ensures Add16(Add16(c, x), y) == Add16(c, x + y)
  {
  }

  /** The inner loop: it adds the bits of one mask to the counter. */
  method AddBits(start: nat, processorMask: nat) returns (count: nat)
    requires start < TWO16
    ensures count == Add16(start, |Bits(processorMask)|)
  {
    count := start;
    var mask := processorMask;
    ghost var pos: nat, done: nat := 0, 0;
    while mask != 0
      invariant count == Add16(start, done) && done + |BitsFrom(mask, pos)| == |Bits(processorMask)|
      decreases mask
    {
      var bit := mask % 2;
      BitsOfShift(mask, pos);
      AddTwice(start, done, bit);
      count := Add16(count, bit);
      pos, done := pos + 1, done + bit;
      mask := mask / 2;
    }
  }

  method GetProcessorCoreCounts(rs: seq<Record>) returns (physical: nat, logical: nat)
    ensures physical == Cores(rs) % TWO16 && logical == BitTotal(rs) % TWO16
    ensures physical == |set i | 0 <= i < |rs| && rs[i].isCore| % TWO16
    ensures Disjoint(rs) ==> logical == |Union(rs)| % TWO16
  {
    physical, logical := 0, 0;
    for i := 0 to |rs|
      invariant physical == Add16(0, Cores(rs[..i])) && logical == Add16(0, BitTotal(rs[..i]))
    {
      assert rs[..i + 1][..i] == rs[..i];
      if rs[i].isCore {
        AddTwice(0, Cores(rs[..i]), 1);
        AddTwice(0, BitTotal(rs[..i]), |Bits(rs[i].mask)|);
        physical := Add16(physical, 1);
        logical := AddBits(logical, rs[i].mask);
      }
    }
    assert rs[..|rs|] == rs;
    CoresAreRecords(rs);
    TotalIsUnionExactly(rs);
  }
}

/**
 The session id generator: a wrapping counter of an unsigned type with `size`
 values that skips one of them, the invalid id.
 */
module SessionId {
  import opened Modular

  predicate Config(size: nat, invalid: nat) { 2 <= size && invalid < size }

  /** The id handed out when the static counter stands at `id`. */
  function Issue(size: nat, invalid: nat, id: nat): nat
    requires Config(size, invalid)
  {
    if id == invalid then (id + 1) % size else id
  }

  /** The counter after `k` calls that started at `id`. */
  function CounterAfter(size: nat, invalid: nat, id: nat, k: nat): (c: nat)
    requires Config(size, invalid) && id < size
    ensures c < size
  {
    if k == 0 then id else (Issue(size, invalid, CounterAfter(size, invalid, id, k - 1)) + 1) % size
  }

  /** The result of call number `k`, counting from 0. */
  function Result(size: nat, invalid: nat, id: nat, k: nat): nat
    requires Config(size, invalid) && id < size
  {
    Issue(size, invalid, CounterAfter(size, invalid, id, k))
  }

  /** Place of a valid id in the cycle that starts behind the invalid one. */
  function Place(size: nat, invalid: nat, id: nat): int
    requires Config(size, invalid) && id < size
  {
    if id > invalid then id - invalid - 1 else id - invalid - 1 + size
  }

  lemma {:induction false} PlaceOfResult(size: nat, invalid: nat, id: nat, k: nat)
    requires Config(size, invalid) && id < size
    ensures var r := Result(size, invalid, id, k);
            && r < size && r != invalid
            && Place(size, invalid, r) == (Place(size, invalid, Result(size, invalid, id, 0)) + k) % (size - 1)
  {
    var m := size - 1;
    var r := Result(size, invalid, id, k);
    WrapOnce(CounterAfter(size, invalid, id, k), size);
    if k == 0 {
      SmallMod(Place(size, invalid, r), m);
    } else {
      var before := Result(size, invalid, id, k - 1);
      var p0 := Place(size, invalid, Result(size, invalid, id, 0));
      PlaceOfResult(size, invalid, id, k - 1);
      WrapOnce(before, size);
      var p := Place(size, invalid, before);
      assert Place(size, invalid, r) == if p == m - 1 then 0 else p + 1;
      NextMod(p0 + (k - 1), m);
    }
  }

  lemma WrapOnce(x: nat, size: nat)
    requires x < size
    ensures (x + 1) % size == if x + 1 == size then 0 else x + 1
  {
  }

  lemma NextMod(x: nat, m: nat)
    requires m > 0
    ensures (x + 1) % m == if x % m == m - 1 then 0 else x % m + 1
  {
    var q := x / m;
    assert x + 1 == q * m + (x % m + 1);
    if x % m == m - 1 {
      ModUnique(x + 1, m, q + 1, 0);
    } else {
      ModUnique(x + 1, m, q, x % m + 1);
    }
  }

  lemma CongruentMod(a: nat, i: nat, j: nat, m: nat)
    requires m > 0
    ensures (a + i) % m == (a + j) % m <==> (i - j) % m == 0
  {
    var qi, qj := (a + i) / m, (a + j) / m;
    assert i - j == (qi - qj) * m + ((a + i) % m - (a + j) % m);
    if (a + i) % m == (a + j) % m {
      ModUnique(i - j, m, qi - qj, 0);
    } else if (i - j) % m == 0 {
      var q := (i - j) / m;
      assert i - j == q * m;
      assert a + i == (q + qj) * m + (a + j) % m by { assert a + i == (i - j) + (a + j); }
      ModUnique(a + i, m, q + qj, (a + j) % m);
    }
  }

  /** Ids are never invalid, and two calls agree exactly when they are a multiple of size - 1 calls apart. */
  lemma IdsRepeatExactly(size: nat, invalid: nat, id: nat, i: nat, j: nat)
    requires Config(size, invalid) && id < size
    ensures Result(size, invalid, id, i) != invalid
    ensures Result(size, invalid, id, i) == Result(size, invalid, id, j) <==> (i - j) % (size - 1) == 0
  {
    PlaceOfResult(size, invalid, id, i);
    PlaceOfResult(size, invalid, id, j);
    PlaceOfResult(size, invalid, id, 0);
    CongruentMod(Place(size, invalid, Result(size, invalid, id, 0)), i, j, size - 1);
    var r, q := Result(size, invalid, id, i), Result(size, invalid, id, j);
    assert Place(size, invalid, r) == Place(size, invalid, q) ==> r == q;
  }

  /** Any size - 1 consecutive ids are pairwise distinct, across the wrap-around. */
  lemma ConsecutiveIdsDiffer(size: nat, invalid: nat, id: nat, start: nat, a: nat, b: nat)
    requires Config(size, invalid) && id < size && a < b < size - 1
    ensures Result(size, invalid, id, start + a) != Result(size, invalid, id, start + b)
  {
    IdsRepeatExactly(size, invalid, id, start + b, start + a);
    SmallMod(b - a, size - 1);
  }

  /** The function with its static counter, here a field. */
  class Generator {
    const size: nat
    const invalid: nat
    var id: nat
    ghost var start: nat
    ghost var calls: nat

    ghost predicate Valid()
      reads this
    {
      && Config(size, invalid) && start < size
      && id == CounterAfter(size, invalid, start, calls)
    }

    constructor (size: nat, invalid: nat)
      requires Config(size, invalid)
      ensures Valid() && this.size == size && this.invalid == invalid && id == start == 1 && calls == 0
    {
      this.size, this.invalid := size, invalid;
      id, start, calls := 1, 1, 0;
    }

    method GetSessionID() returns (r: nat)
      requires Valid()
      modifies this
      ensures Valid() && start == old(start) && calls == old(calls) + 1
      ensures r == Result(size, invalid, start, old(calls)) && r != invalid
    {
      IdsRepeatExactly(size, invalid, start, calls, calls);
      if id == invalid { id := (id + 1) % size; }
      r := id;
      id := (id + 1) % size;
      calls := calls + 1;
    }
  }
}

/**
 * The two scenarios of the crate's test suite, replayed against the pool's
 * contracts: every observation the tests make follows from them.
 */
module Scenarios {
  import opened Wrappers
  import opened Iter
  import opened Pool

  /** Three allocations, one return, and the returned index handed out again. */
  method BasicScenario() returns (a: nat, b: nat, c: nat, p: nat)
    ensures [a, b, c] == [0, 1, 2]
    ensures [a, c, p] == [0, 2, 1]
  {
    var pool;
    pool, a, b, c := AllocateThree();
    ReturnMiddle(pool);
    p := ReallocateMiddle(pool);
  }

  /** `new_id` on a pool holding exactly `{0, 2}` hands 1 out again. */
  method ReallocateMiddle(pool: IndexPool) returns (p: nat)
    requires pool.Valid() && pool.base == 0 && pool.Used() == {0, 2} && pool.in_use == 2
    modifies pool, pool.free_list
    ensures p == 1
  {
    p := AllocateNext(pool, {0, 2}, 1);
    var all := ObserveThree(pool);
  }

  /** What the test reads off a pool holding exactly `{0, 1, 2}`. */
  method ObserveThree(pool: IndexPool) returns (all: seq<nat>)
    requires pool.Valid() && pool.base == 0 && pool.Used() == {0, 1, 2}
    ensures !pool.IsFree(0) && !pool.IsFree(1) && !pool.IsFree(2)
    ensures all == [0, 1, 2]
    ensures pool.Maximum() == 3 && pool.InUse() == 3
  {
    all := Observe(pool, [0, 1, 2]);
  }

  /** A fresh pool after one call to `new_id`, observed before and after. */
  method AllocateOne() returns (pool: IndexPool, a: nat)
    ensures fresh(pool) && fresh(pool.free_list) && pool.Valid() && pool.base == 0
    ensures pool.Used() == {0} && pool.in_use == 1 && a == 0
  {
    pool := new IndexPool();
    assert pool.IsFree(0) && pool.IsFree(1) && pool.IsFree(2);
    var all := Observe(pool, []);
    assert pool.Maximum() == 0 && pool.InUse() == 0;
    a := AllocateNext(pool, {}, 0);
    all := Observe(pool, [0]);
    assert pool.Maximum() == 1 && pool.InUse() == 1;
  }

  /** The pool after a second call to `new_id`. */
  method AllocateTwo() returns (pool: IndexPool, a: nat, b: nat)
    ensures fresh(pool) && fresh(pool.free_list) && pool.Valid() && pool.base == 0
    ensures pool.Used() == {0, 1} && pool.in_use == 2 && a == 0 && b == 1
  {
    pool, a := AllocateOne();
    b := AllocateNext(pool, {0}, 1);
    assert !pool.IsFree(a);
    var all := Observe(pool, [0, 1]);
    assert pool.Maximum() == 2 && pool.InUse() == 2;
  }

  /** The pool after a third call to `new_id`. */
  method AllocateThree() returns (pool: IndexPool, a: nat, b: nat, c: nat)
    ensures fresh(pool) && fresh(pool.free_list) && pool.Valid() && pool.base == 0
    ensures pool.Used() == {0, 1, 2} && pool.in_use == 3
    ensures [a, b, c] == [0, 1, 2]
  {
    pool, a, b := AllocateTwo();
    c := AllocateNext(pool, {0, 1}, 2);
    var all := ObserveThree(pool);
  }

  /** What the test reads off a pool whose indices in use are exactly the ascending `expected`. */
  method Observe(pool: IndexPool, expected: seq<nat>) returns (all: seq<nat>)
    requires pool.Valid() && pool.base == 0 && Ascending(expected)
    requires forall v :: v in pool.Used() <==> v in expected
    ensures all == expected
    ensures pool.InUse() == |expected|
    ensures pool.Maximum() == if expected == [] then 0 else expected[|expected| - 1] + 1
  {
    all := CollectIndices(pool);
    AscendingUnique(all, expected);
    AscendingCard(expected);
    assert pool.Used() == Elements(expected);
    var m := pool.Maximum();
    if expected != [] {
      var last := expected[|expected| - 1];
      assert last in pool.Used();
      assert m - 1 in expected;
    }
  }

  /** One `new_id` on a pool whose indices in use are `[0, n)` except the gap, if any, at `n`. */
  method AllocateNext(pool: IndexPool, used: set<nat>, n: nat) returns (id: nat)
    requires pool.Valid() && pool.base == 0 && pool.Used() == used && pool.in_use == |used|
    requires n !in used && forall v: nat :: v < n ==> v in used
    modifies pool, pool.free_list
    ensures pool.Valid() && pool.base == 0
    ensures id == n && !pool.IsFree(id)
    ensures pool.Used() == used + {n} && pool.InUse() == |used| + 1
  {
    assert pool.IsFree(n);
    id := pool.NewId();
  }

  /** Returns index 1 of a pool holding exactly `{0, 1, 2}`. */
  method ReturnMiddle(pool: IndexPool)
    requires pool.Valid() && pool.base == 0 && pool.Used() == {0, 1, 2} && pool.in_use == 3
    modifies pool, pool.free_list
    ensures pool.Valid() && pool.base == 0 && pool.Used() == {0, 2} && pool.in_use == 2
  {
    assert !pool.IsFree(1);
    var r := pool.ReturnId(1);
    assert r == Ok;
    assert !pool.IsFree(0) && pool.IsFree(1) && !pool.IsFree(2);
    var all := Observe(pool, [0, 2]);
    assert pool.Maximum() == 3 && pool.InUse() == 2;
  }

  /** Requesting chosen indices, the second one past a gap, then returning both. */
  method SpecificValuesScenario() returns (first: Outcome<AlreadyReturned>, second: Outcome<AlreadyReturned>)
    ensures first == Ok && second == Ok
  {
    var pool := RequestTwo();
    assert !pool.IsFree(1);
    first := pool.ReturnId(1);
    assert first == Ok && pool.Used() == {5};
    assert !pool.IsFree(5);
    second := pool.ReturnId(5);
    assert second == Ok && pool.Used() == {};
    assert pool.Maximum() == 0 && pool.InUse() == 0;
  }

  /** A fresh pool after `request_id(1)` and `request_id(5)`. */
  method RequestTwo() returns (pool: IndexPool)
    ensures fresh(pool) && fresh(pool.free_list) && pool.Valid()
    ensures pool.Used() == {1, 5} && pool.in_use == 2 && pool.base == 0
  {
    pool := new IndexPool();
    assert pool.IsFree(1);
    var r := pool.RequestId(1);
    assert r == Ok && !pool.IsFree(1);
    r := pool.RequestId(5);
    assert r == Ok;
  }
}

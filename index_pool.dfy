/**
 * The pool of unique indices. Indices at or above the frontier `next_id`
 * are free; below it, the free list holds the free indices: those handed
 * back, and those `request_id` skipped over. The indices in use are the rest
 * of `[0, next_id)`.
 *
 * The pool's bookkeeping is first stated on values: `State` is what the pool
 * holds, seen through the set of free points, and each kind of update is a
 * function on it whose effect on the indices in use is proved once. The
 * `IndexPool` class then updates its fields in place and ties its new state
 * to one of these functions of its old state.
 */
module Pool {
  import opened Wrappers
  import opened Ranges
  import opened FreeList
  import opened Iter

  /** `usize::MAX` on a 64-bit target. */
  const USIZE_MAX: nat := 0xFFFF_FFFF_FFFF_FFFF

  /** `return_id` was given an index that is not in use. */
  datatype AlreadyReturned = AlreadyReturned

  /** `request_id` was given an index that is already in use. */
  datatype AlreadyInUse = AlreadyInUse

  /**
   * The pool's fields, with the free list seen as its set of free points.
   * `base` is the initial index: the indices below it count as in use, but
   * `in_use` does not include them.
   */
  datatype State = State(next: nat, inUse: nat, base: nat, free: set<nat>)

  /** The indices in use: those below the frontier that are not free. */
  ghost function UsedOf(s: State): (u: set<nat>)
    ensures forall v: nat :: v in u <==> v < s.next && v !in s.free
  {
    set v: nat | v < s.next && v !in s.free
  }

  /** Every free point lies below the frontier, and the counter agrees with the free list. */
  ghost predicate Counted(s: State) {
    (forall v :: v in s.free ==> v < s.next) &&
    s.inUse + s.base == s.next - |s.free|
  }

  /** Also, the index just below the frontier is in use: no free range touches the frontier. */
  ghost predicate Settled(s: State) {
    Counted(s) && (s.next > 0 ==> s.next - 1 !in s.free)
  }

  /** The free points of a counted state are exactly `[0, next)` minus the indices in use. */
  lemma UsedCount(s: State)
    requires Counted(s)
    ensures |UsedOf(s)| == s.inUse + s.base
  {
    BelowCard(s.next);
    assert UsedOf(s) == Below(s.next) - s.free;
    assert Below(s.next) * s.free == s.free;
  }

  /** Hands out the frontier. */
  function Extend(s: State): State {
    s.(next := s.next + 1, inUse := s.inUse + 1)
  }

  /** Hands out the free index `x`. */
  function Take(s: State, x: nat): State {
    s.(inUse := s.inUse + 1, free := s.free - {x})
  }

  /** Hands out `id` past the frontier, freeing the gap `[next, id - 1]` below it. */
  ghost function Jump(s: State, id: nat): State
    requires s.next < id
  {
    State(id + 1, s.inUse + 1, s.base, s.free + Span(Range(s.next, id - 1)))
  }

  /** Takes back the index `x`: the frontier retreats when `x` is just below it, else `x` is freed. */
  function Release(s: State, x: nat): State
    requires s.inUse > 0
  {
    if x + 1 == s.next then s.(next := x, inUse := s.inUse - 1)
    else s.(inUse := s.inUse - 1, free := s.free + {x})
  }

  /** Moves the frontier down over the free range `r` that ends just below it. */
  ghost function Collapse(s: State, r: Range): State {
    s.(next := r.min, free := s.free - Span(r))
  }

  /** Handing out the frontier uses exactly it and keeps the state settled. */
  lemma ExtendUsed(s: State)
    requires Counted(s)
    ensures s.next !in UsedOf(s)
    ensures Settled(Extend(s))
    ensures UsedOf(Extend(s)) == UsedOf(s) + {s.next}
  {
  }

  /** Handing out a free index uses exactly it and keeps the state settled. */
  lemma TakeUsed(s: State, x: nat)
    requires Settled(s) && x in s.free
    ensures x !in UsedOf(s)
    ensures Settled(Take(s, x))
    ensures UsedOf(Take(s, x)) == UsedOf(s) + {x}
  {
    assert |s.free - {x}| == |s.free| - 1;
  }

  /**
   * Jumping past the frontier frees exactly the indices of the gap, uses
   * exactly `id`, and keeps the state settled.
   */
  lemma JumpUsed(s: State, id: nat)
    requires Counted(s) && s.next < id
    ensures forall v: nat :: v in Jump(s, id).free <==> v in s.free || s.next <= v < id
    ensures Settled(Jump(s, id))
    ensures UsedOf(Jump(s, id)) == UsedOf(s) + {id}
  {
    var gap := Range(s.next, id - 1);
    SpanCard(gap);
    assert s.free * Span(gap) == {};
  }

  /** Taking back an index in use frees exactly it and keeps the count. */
  lemma ReleaseUsed(s: State, x: nat)
    requires Settled(s) && x in UsedOf(s) && s.inUse > 0
    ensures x !in UsedOf(Release(s, x))
    ensures Counted(Release(s, x))
    ensures UsedOf(Release(s, x)) == UsedOf(s) - {x}
  {
    if x + 1 != s.next {
      assert |s.free + {x}| == |s.free| + 1;
    }
  }

  /** Collapsing a free range flush with the frontier changes no index in use and lowers the frontier. */
  lemma CollapseUsed(s: State, r: Range)
    requires Counted(s) && WellFormed(r) && Span(r) <= s.free && r.max + 1 == s.next
    ensures Counted(Collapse(s, r))
    ensures Collapse(s, r).next < s.next
    ensures UsedOf(Collapse(s, r)) == UsedOf(s)
  {
    SpanCard(r);
    assert s.free == (s.free - Span(r)) + Span(r);
    assert (s.free - Span(r)) * Span(r) == {};
  }

  /** When the highest free point is not just below the frontier, the state is settled. */
  lemma NoCollapseSettled(s: State, top: Option<nat>)
    requires Counted(s)
    requires top.None? ==> s.free == {}
    requires top.Some? ==> top.value in s.free && forall v :: v in s.free ==> v <= top.value
    requires top.Some? ==> top.value + 1 != s.next
    ensures Settled(s)
  {
  }

  class IndexPool {
    var next_id: nat
    var in_use: nat
    const free_list: FreeRanges
    /** The initial index the pool was built with. */
    ghost var base: nat

    /** The pool's fields as a `State`. */
    ghost function Abs(): State
      reads this, free_list
    {
      State(next_id, in_use, base, free_list.FreeSet())
    }

    /** The invariant that holds between the steps of the frontier-collapse loop. */
    ghost predicate Stable()
      reads this, free_list
    {
      free_list.Valid() && Counted(Abs())
    }

    /** The representation invariant. */
    ghost predicate Valid()
      reads this, free_list
    {
      free_list.Valid() && Settled(Abs())
    }

    /** The indices in use. */
    ghost function Used(): set<nat>
      reads this, free_list
    {
      UsedOf(Abs())
    }

    /** Constructs an empty pool whose first index is 0. */
    constructor ()
      ensures Valid() && fresh(free_list)
      ensures next_id == 0 && in_use == 0 && free_list.ranges == [] && base == 0
      ensures Used() == {}
    {
      next_id := 0;
      in_use := 0;
      free_list := new FreeRanges();
      base := 0;
    }

    /** Constructs an empty pool whose first index is `index`; `[0, index)` counts as taken. */
    constructor WithInitialIndex(index: nat)
      ensures Valid() && fresh(free_list)
      ensures next_id == index && in_use == 0 && free_list.ranges == [] && base == index
      ensures Used() == Below(index)
    {
      next_id := index;
      in_use := 0;
      free_list := new FreeRanges();
      base := index;
    }

    /** Allocates the lowest free index. */
    method NewId() returns (id: nat)
      requires Valid()
      modifies this, free_list
      ensures Valid() && base == old(base)
      ensures old(free_list.ranges) == [] ==> id == old(next_id) && Abs() == Extend(old(Abs()))
      ensures old(free_list.ranges) != [] ==>
        id == old(free_list.ranges)[0].min && Abs() == Take(old(Abs()), id)
      ensures old(IsFree(id)) && !IsFree(id)
      ensures forall v: nat :: v < id ==> v in old(Used())
      ensures Used() == old(Used()) + {id}
      ensures in_use == old(in_use) + 1
    {
      ghost var s := Abs();
      in_use := in_use + 1;
      var first := free_list.SetFirstUsed();
      if first.Some? {
        id := first.value;
        assert Abs() == Take(s, id);
        TakeUsed(s, id);
      } else {
        id := next_id;
        next_id := next_id + 1;
        assert Abs() == Extend(s);
        ExtendUsed(s);
      }
    }

    /** Reserves the index `id`, freeing the gap below it when it lies past the frontier. */
    method RequestId(id: nat) returns (r: Outcome<AlreadyInUse>)
      requires Valid()
      requires id < USIZE_MAX
      modifies this, free_list
      ensures Valid() && base == old(base)
      ensures id == old(next_id) ==> r == Ok && Abs() == Extend(old(Abs()))
      ensures old(next_id) < id ==> r == Ok && Abs() == Jump(old(Abs()), id)
      ensures old(next_id) <= id ==> next_id == id + 1
      ensures id < old(next_id) ==> (r == Ok <==> old(IsFree(id)))
      ensures id < old(next_id) && r == Ok ==> Abs() == Take(old(Abs()), id)
      ensures r == Ok ==> Used() == old(Used()) + {id} && in_use == old(in_use) + 1 && !IsFree(id)
      ensures r.Err? ==>
        next_id == old(next_id) && in_use == old(in_use) && free_list.ranges == old(free_list.ranges)
    {
      ghost var s := Abs();
      if id == next_id {
        next_id := next_id + 1;
        in_use := in_use + 1;
        assert Abs() == Extend(s);
        ExtendUsed(s);
        r := Ok;
      } else if id > next_id {
        JumpUsed(s, id);
        free_list.SetRangeFree(Range(next_id, id - 1));
        next_id := id + 1;
        in_use := in_use + 1;
        assert Abs() == Jump(s, id);
        r := Ok;
      } else {
        var wasFree := free_list.SetUsed(id);
        if wasFree {
          in_use := in_use + 1;
          assert Abs() == Take(s, id);
          TakeUsed(s, id);
          r := Ok;
        } else {
          r := Err(AlreadyInUse);
        }
      }
    }

    /**
     * Gives `id` back to the pool, then pulls the frontier down over any free
     * range that now touches it.
     */
    method ReturnId(id: nat) returns (r: Outcome<AlreadyReturned>)
      requires Valid()
      requires in_use == 0 ==> IsFree(id)
      modifies this, free_list
      ensures Valid() && base == old(base)
      ensures r.Err? <==> old(IsFree(id))
      ensures r.Err? ==>
        next_id == old(next_id) && in_use == old(in_use) && free_list.ranges == old(free_list.ranges)
      ensures r == Ok ==> IsFree(id) && in_use == old(in_use) - 1 && Used() == old(Used()) - {id}
      ensures next_id <= old(next_id)
    {
      if id >= next_id {
        return Err(AlreadyReturned);
      }
      ghost var s := Abs();
      if id + 1 == next_id {
        next_id := next_id - 1;
      } else {
        var wasUsed := free_list.SetFree(id);
        if !wasUsed {
          return Err(AlreadyReturned);
        }
        assert free_list.IsFree(id);
      }
      in_use := in_use - 1;
      ReleaseUsed(s, id);
      assert Abs() == Release(s, id);
      var more := CollapseNext();
      while more
        invariant Stable() && base == old(base) && in_use == old(in_use) - 1
        invariant Used() == old(Used()) - {id}
        invariant next_id <= old(next_id)
        invariant !more ==> Valid()
        decreases next_id + (if more then 1 else 0)
      {
        more := CollapseNext();
      }
      r := Ok;
    }

    /** If the highest free range ends just below the frontier, moves the frontier to its start. */
    method CollapseNext() returns (collapsed: bool)
      requires Stable()
      modifies this, free_list
      ensures Stable() && base == old(base) && in_use == old(in_use)
      ensures Used() == old(Used())
      ensures collapsed <==>
        old(free_list.LastRange()).Some? && old(free_list.LastRange()).value.max + 1 == old(next_id)
      ensures collapsed ==>
        Abs() == Collapse(old(Abs()), old(free_list.LastRange()).value) && next_id < old(next_id)
      ensures !collapsed ==> Valid() && next_id == old(next_id) && free_list.ranges == old(free_list.ranges)
    {
      ghost var s := Abs();
      var last := free_list.LastRange();
      if last.Some? {
        var range := last.value;
        assert range.max in Span(range);
        if range.max + 1 == next_id {
          CollapseUsed(s, range);
          free_list.RemoveLastContiguous();
          next_id := range.min;
          assert Abs() == Collapse(s, range);
          return true;
        }
        NoCollapseSettled(s, Some(range.max));
      } else {
        NoCollapseSettled(s, None);
      }
      return false;
    }

    /** One past the highest index in use, or 0 when none is. */
    function Maximum(): (m: nat)
      reads this, free_list
      requires Valid()
      ensures forall v :: v in Used() ==> v < m
      ensures m > 0 ==> m - 1 in Used()
    {
      next_id
    }

    /** The number of indices in use, not counting those below the initial index. */
    function InUse(): (n: nat)
      reads this, free_list
      requires Valid()
      ensures n + base == |Used()|
    {
      UsedCount(Abs());
      in_use
    }

    predicate IsFree(id: nat): (b: bool)
      reads this, free_list
      requires Valid()
      ensures b <==> id !in Used()
    {
      id >= next_id || free_list.IsFree(id)
    }

    /** Resets the pool to the state `new` builds. */
    method Clear()
      modifies this, free_list
      ensures Valid()
      ensures next_id == 0 && in_use == 0 && free_list.ranges == [] && base == 0
      ensures Used() == {}
    {
      free_list.Clear();
      in_use := 0;
      next_id := 0;
      base := 0;
    }

    /** An iterator over the indices in use. */
    method AllIndices() returns (it: IndexIter)
      requires Valid()
      ensures fresh(it) && it.Valid() && it.yielded == []
      ensures it.all == free_list.ranges && it.end == next_id
    {
      BoundedPoints(free_list.ranges, next_id);
      it := new IndexIter(free_list.ranges, next_id);
    }
  }

  /** Collects every index the pool's iterator yields. */
  method CollectIndices(pool: IndexPool) returns (s: seq<nat>)
    requires pool.Valid()
    ensures Ascending(s)
    ensures forall v :: v in s <==> v in pool.Used()
    ensures |s| == pool.InUse() + pool.base
  {
    var it := pool.AllIndices();
    s := Collect(it);
    PointsCovers(pool.free_list.ranges);
    BoundedPoints(pool.free_list.ranges, pool.next_id);
    YieldCount(s, pool.free_list.ranges, pool.next_id);
    PointsCard(pool.free_list.ranges);
    UsedCount(pool.Abs());
  }
}

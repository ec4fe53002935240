/**
 * The free list the pool owns and mutates in place. Each method is one of
 * the free-list operations the pool calls, specified by what it does to the
 * set of free points, `FreeSet()`, and to the stored ranges.
 */
module FreeList {
  import opened Wrappers
  import opened Ranges

  class FreeRanges {
    /** The stored ranges, in ascending order. */
    var ranges: seq<Range>

    ghost predicate Valid()
      reads this
    {
      Coalesced(ranges)
    }

    /** The free indices the ranges stand for. */
    ghost function FreeSet(): set<nat>
      reads this
    {
      Points(ranges)
    }

    constructor ()
      ensures Valid() && ranges == [] && FreeSet() == {}
    {
      ranges := [];
    }

    /** Takes the lowest free index out of the list, if there is one. */
    method SetFirstUsed() returns (id: Option<nat>)
      requires Valid()
      modifies this
      ensures Valid()
      ensures id.None? <==> old(FreeSet()) == {}
      ensures id.None? <==> old(ranges) == []
      ensures id.None? ==> ranges == old(ranges)
      ensures id.Some? ==> id.value == old(ranges)[0].min
      ensures id.Some? ==> id.value in old(FreeSet())
      ensures id.Some? ==> forall v :: v in old(FreeSet()) ==> id.value <= v
      ensures id.Some? ==> FreeSet() == old(FreeSet()) - {id.value}
    {
      id := First(ranges);
      if id.Some? {
        ranges := Remove(ranges, id.value);
      }
    }

    /** Marks every index of `r` free, merging with the ranges it touches. */
    method SetRangeFree(r: Range)
      requires Valid() && WellFormed(r)
      modifies this
      ensures Valid()
      ensures FreeSet() == old(FreeSet()) + Span(r)
    {
      ranges := Insert(ranges, r);
    }

    /** Marks `v` used; reports whether it was free. */
    method SetUsed(v: nat) returns (wasFree: bool)
      requires Valid()
      modifies this
      ensures Valid()
      ensures wasFree <==> v in old(FreeSet())
      ensures FreeSet() == old(FreeSet()) - {v}
      ensures !wasFree ==> ranges == old(ranges)
    {
      PointsCovers(ranges);
      wasFree := Covers(ranges, v);
      if wasFree {
        ranges := Remove(ranges, v);
      }
    }

    /** Marks `v` free; reports whether it was used (false on a double free). */
    method SetFree(v: nat) returns (wasUsed: bool)
      requires Valid()
      modifies this
      ensures Valid()
      ensures wasUsed <==> v !in old(FreeSet())
      ensures FreeSet() == old(FreeSet()) + {v}
      ensures !wasUsed ==> ranges == old(ranges)
    {
      PointsCovers(ranges);
      wasUsed := !Covers(ranges, v);
      if wasUsed {
        ranges := Insert(ranges, Range(v, v));
      }
    }

    predicate IsFree(v: nat): (b: bool)
      reads this
      requires Valid()
      ensures b <==> v in FreeSet()
    {
      PointsCovers(ranges);
      Covers(ranges, v)
    }

    /** The highest stored range, the last one the ordered set yields. */
    function LastRange(): (r: Option<Range>)
      reads this
      requires Valid()
      ensures r.None? <==> FreeSet() == {}
      ensures r.Some? ==> r == Some(ranges[|ranges| - 1])
      ensures r.Some? ==> WellFormed(r.value) && Span(r.value) <= FreeSet()
      ensures r.Some? ==> forall v :: v in FreeSet() ==> v <= r.value.max
      ensures r.Some? && r.value.min > 0 ==> r.value.min - 1 !in FreeSet()
    {
      Last(ranges)
    }

    /** Removes the highest stored range. */
    method RemoveLastContiguous()
      requires Valid()
      modifies this
      ensures Valid()
      ensures old(ranges) == [] ==> ranges == []
      ensures old(ranges) != [] ==> ranges == old(ranges)[..|old(ranges)| - 1]
      ensures old(ranges) != [] ==> FreeSet() == old(FreeSet()) - Span(old(ranges)[|old(ranges)| - 1])
      ensures old(ranges) != [] ==> forall v :: v in FreeSet() ==> v + 1 < old(ranges)[|old(ranges)| - 1].min
    {
      if ranges != [] {
        ranges := DropLast(ranges);
      }
    }

    method Clear()
      modifies this
      ensures Valid() && ranges == [] && FreeSet() == {}
    {
      ranges := [];
    }
  }
}

/**
 * The free list of the pool: a sorted sequence of closed ranges of free
 * indices. Ranges are kept pairwise disjoint and pairwise non-adjacent, so
 * every maximal run of free indices is exactly one stored range. Each
 * operation the pool asks of the free list is a function here whose contract
 * says what it does to the set of free points.
 */
module Ranges {
  import opened Wrappers

  /** A closed interval `[min, max]` of indices. */
  datatype Range = Range(min: nat, max: nat)

  predicate WellFormed(r: Range) {
    r.min <= r.max
  }

  predicate Contains(r: Range, v: nat) {
    r.min <= v <= r.max
  }

  /** Number of indices in a range. */
  function Len(r: Range): nat
    requires WellFormed(r)
  {
    r.max - r.min + 1
  }

  function Min(a: nat, b: nat): nat {
    if a <= b then a else b
  }

  function Max(a: nat, b: nat): nat {
    if a <= b then b else a
  }

  /** The indices inside a range. */
  ghost function Span(r: Range): (s: set<nat>)
  {
    set v: nat | v <= r.max && Contains(r, v)
  }

  /** The indices `[0, n)`. */
  ghost function Below(n: nat): (s: set<nat>)
    ensures forall v: nat :: v in s <==> v < n
  {
    if n == 0 then {} else Span(Range(0, n - 1))
  }

  lemma {:induction false} SpanCard(r: Range)
    requires WellFormed(r)
    ensures |Span(r)| == Len(r)
    decreases r.max - r.min
  {
    if r.min == r.max {
      assert Span(r) == {r.min};
    } else {
      var shorter := Range(r.min, r.max - 1);
      SpanCard(shorter);
      assert Span(r) == Span(shorter) + {r.max};
    }
  }

  lemma BelowCard(n: nat)
    ensures |Below(n)| == n
  {
    if n > 0 {
      SpanCard(Range(0, n - 1));
    }
  }

  /**
   * The free-list invariant: every range is well formed, and any two ranges
   * are in ascending order with at least one used index between them, so
   * they are sorted, disjoint and non-adjacent.
   */
  ghost predicate Coalesced(rs: seq<Range>) {
    (forall i :: 0 <= i < |rs| ==> WellFormed(rs[i])) &&
    (forall i, j :: 0 <= i < j < |rs| ==> Apart(rs, i, j))
  }

  /** Range `i` ends at least one index before range `j` starts. */
  ghost predicate Apart(rs: seq<Range>, i: int, j: int) {
    0 <= i < j < |rs| && rs[i].max + 1 < rs[j].min
  }

  /** Every range ends below `end`. */
  ghost predicate Bounded(rs: seq<Range>, end: nat) {
    forall i :: 0 <= i < |rs| ==> rs[i].max < end
  }

  /** Some stored range holds `v`. */
  predicate Covers(rs: seq<Range>, v: nat) {
    exists i :: 0 <= i < |rs| && Contains(rs[i], v)
  }

  lemma CoversTail(rs: seq<Range>)
    requires rs != []
    ensures forall v :: Covers(rs, v) <==> Contains(rs[0], v) || Covers(rs[1..], v)
  {
    forall v | Covers(rs[1..], v)
      ensures Covers(rs, v)
    {
      var i :| 0 <= i < |rs| - 1 && Contains(rs[1..][i], v);
      assert Contains(rs[i + 1], v);
    }
    forall v | Covers(rs, v) && !Contains(rs[0], v)
      ensures Covers(rs[1..], v)
    {
      var i :| 0 <= i < |rs| && Contains(rs[i], v);
      assert Contains(rs[1..][i - 1], v);
    }
  }

  /** The set of free points the ranges stand for. */
  ghost function Points(rs: seq<Range>): set<nat>
  {
    if rs == [] then {} else Span(rs[0]) + Points(rs[1..])
  }

  /** A point is free exactly when some stored range holds it. */
  lemma {:induction false} PointsCovers(rs: seq<Range>)
    ensures forall v :: v in Points(rs) <==> Covers(rs, v)
  {
    if rs != [] {
      CoversTail(rs);
      PointsCovers(rs[1..]);
    }
  }

  /** Total number of free points, summed range by range. */
  function TotalLength(rs: seq<Range>): nat
    requires Coalesced(rs)
  {
    if rs == [] then 0
    else
      CoalescedTail(rs);
      Len(rs[0]) + TotalLength(rs[1..])
  }

  lemma CoalescedTail(rs: seq<Range>)
    requires Coalesced(rs) && rs != []
    ensures Coalesced(rs[1..])
  {
    var t := rs[1..];
    forall i, j | 0 <= i < j < |t|
      ensures Apart(t, i, j)
    {
      assert Apart(rs, i + 1, j + 1);
      assert t[i] == rs[i + 1] && t[j] == rs[j + 1];
    }
  }

  /** Prepending a range that ends well below the first one keeps the invariant. */
  lemma ConsCoalesced(h: Range, t: seq<Range>)
    requires WellFormed(h) && Coalesced(t)
    requires t != [] ==> h.max + 1 < t[0].min
    ensures Coalesced([h] + t)
  {
    var s := [h] + t;
    forall i, j | 0 <= i < j < |s|
      ensures Apart(s, i, j)
    {
      assert s[j] == t[j - 1];
      if i == 0 && j > 1 {
        assert Apart(t, 0, j - 1);
      } else if i > 0 {
        assert Apart(t, i - 1, j - 1);
      }
    }
  }

  /** The first range starts at the lowest free point. */
  lemma FirstIsLowest(rs: seq<Range>)
    requires Coalesced(rs) && rs != []
    ensures rs[0].min in Points(rs)
    ensures forall v :: v in Points(rs) ==> rs[0].min <= v
  {
    PointsCovers(rs);
    assert Contains(rs[0], rs[0].min);
    forall v | v in Points(rs)
      ensures rs[0].min <= v
    {
      var i :| 0 <= i < |rs| && Contains(rs[i], v);
      if i > 0 {
        assert Apart(rs, 0, i);
      }
    }
  }

  /**
   * The last range ends at the highest free point, and starts a run: every
   * free point below its start lies at least two below it.
   */
  lemma LastIsHighest(rs: seq<Range>)
    requires Coalesced(rs) && rs != []
    ensures rs[|rs| - 1].max in Points(rs)
    ensures forall v :: v in Points(rs) ==> v <= rs[|rs| - 1].max
    ensures forall v :: v in Points(rs) && v < rs[|rs| - 1].min ==> v + 1 < rs[|rs| - 1].min
  {
    PointsCovers(rs);
    var n := |rs| - 1;
    assert Contains(rs[n], rs[n].max);
    forall v | v in Points(rs)
      ensures v <= rs[n].max
      ensures v < rs[n].min ==> v + 1 < rs[n].min
    {
      var i :| 0 <= i < |rs| && Contains(rs[i], v);
      if i < n {
        assert Apart(rs, i, n);
      }
    }
  }

  /** The free points are counted exactly by the summed range lengths. */
  lemma {:induction false} PointsCard(rs: seq<Range>)
    requires Coalesced(rs)
    ensures |Points(rs)| == TotalLength(rs)
  {
    if rs != [] {
      CoalescedTail(rs);
      PointsCard(rs[1..]);
      SpanCard(rs[0]);
      PointsCovers(rs[1..]);
      forall v | v in Points(rs[1..])
        ensures v !in Span(rs[0])
      {
        var i :| 0 <= i < |rs| - 1 && Contains(rs[1..][i], v);
        assert rs[1..][i] == rs[i + 1];
        assert Apart(rs, 0, i + 1);
      }
      assert Span(rs[0]) * Points(rs[1..]) == {};
    }
  }

  /** Ranges all end below `end` exactly when every free point is below `end`. */
  lemma BoundedPoints(rs: seq<Range>, end: nat)
    requires Coalesced(rs)
    ensures Bounded(rs, end) <==> forall v :: v in Points(rs) ==> v < end
  {
    PointsCovers(rs);
    if Bounded(rs, end) {
      forall v | v in Points(rs)
        ensures v < end
      {
        var i :| 0 <= i < |rs| && Contains(rs[i], v);
      }
    } else {
      var i :| 0 <= i < |rs| && rs[i].max >= end;
      assert Contains(rs[i], rs[i].max);
      assert rs[i].max in Points(rs);
    }
  }

  /** The lowest free point, or `None` when nothing is free. */
  function First(rs: seq<Range>): (m: Option<nat>)
    requires Coalesced(rs)
    ensures m.None? <==> Points(rs) == {}
    ensures m.Some? ==> m.value in Points(rs)
    ensures m.Some? ==> forall v :: v in Points(rs) ==> m.value <= v
  {
    if rs == [] then None
    else
      FirstIsLowest(rs);
      Some(rs[0].min)
  }

  /** The highest stored range, or `None` when nothing is free. */
  function Last(rs: seq<Range>): (m: Option<Range>)
    requires Coalesced(rs)
    ensures m.None? <==> Points(rs) == {}
    ensures m.Some? ==> m.value == rs[|rs| - 1]
    ensures m.Some? ==> WellFormed(m.value) && Span(m.value) <= Points(rs)
    ensures m.Some? ==> forall v :: v in Points(rs) ==> v <= m.value.max
    ensures m.Some? && m.value.min > 0 ==> m.value.min - 1 !in Points(rs)
  {
    if rs == [] then None
    else
      LastIsHighest(rs);
      PointsCovers(rs);
      var n := |rs| - 1;
      assert forall v :: v in Span(rs[n]) ==> Contains(rs[n], v);
      Some(rs[n])
  }

  /** Drops the highest range; every remaining point lies below it, with a gap. */
  function DropLast(rs: seq<Range>): (r: seq<Range>)
    requires Coalesced(rs) && rs != []
    ensures Coalesced(r)
    ensures Points(r) == Points(rs) - Span(rs[|rs| - 1])
    ensures forall v :: v in Points(r) ==> v + 1 < rs[|rs| - 1].min
  {
    DropLastPoints(rs, rs[..|rs| - 1]);
    rs[..|rs| - 1]
  }

  lemma DropLastPoints(rs: seq<Range>, r: seq<Range>)
    requires Coalesced(rs) && rs != [] && r == rs[..|rs| - 1]
    ensures Coalesced(r)
    ensures Points(r) == Points(rs) - Span(rs[|rs| - 1])
    ensures forall v :: v in Points(r) ==> v + 1 < rs[|rs| - 1].min
  {
    var n := |rs| - 1;
    forall i, j | 0 <= i < j < |r|
      ensures Apart(r, i, j)
    {
      assert Apart(rs, i, j);
    }
    PointsCovers(rs);
    PointsCovers(r);
    forall v | v in Points(r)
      ensures v in Points(rs) && v !in Span(rs[n]) && v + 1 < rs[n].min
    {
      var i :| 0 <= i < n && Contains(r[i], v);
      assert r[i] == rs[i];
      assert Apart(rs, i, n);
    }
    forall v | v in Points(rs) && v !in Span(rs[n])
      ensures v in Points(r)
    {
      var i :| 0 <= i < |rs| && Contains(rs[i], v);
      assert i < n;
      assert Contains(r[i], v);
    }
  }

  /**
   * Marks every index of `n` free. Stored ranges that overlap or touch `n`
   * are merged with it into one range, so the result stays coalesced.
   */
  function Insert(rs: seq<Range>, n: Range): (r: seq<Range>)
    requires Coalesced(rs) && WellFormed(n)
    ensures Coalesced(r)
    ensures Points(r) == Points(rs) + Span(n)
    ensures r != [] && r[0].min == if rs == [] then n.min else Min(rs[0].min, n.min)
    decreases |rs|
  {
    if rs == [] then [n]
    else if rs[0].max + 1 < n.min then
      CoalescedTail(rs);
      assert |rs| > 1 ==> Apart(rs, 0, 1);
      var tail := Insert(rs[1..], n);
      ConsCoalesced(rs[0], tail);
      [rs[0]] + tail
    else if n.max + 1 < rs[0].min then
      ConsCoalesced(n, rs);
      [n] + rs
    else
      CoalescedTail(rs);
      assert |rs| > 1 ==> Apart(rs, 0, 1);
      var merged := Range(Min(rs[0].min, n.min), Max(rs[0].max, n.max));
      assert Span(merged) == Span(rs[0]) + Span(n);
      Insert(rs[1..], merged)
  }

  /** Removing `v` from a range leaves the part below it and the part above it. */
  lemma SpanSplit(h: Range, v: nat)
    requires Contains(h, v)
    ensures Span(h) - {v} ==
      (if h.min < v then Span(Range(h.min, v - 1)) else {}) +
      (if v < h.max then Span(Range(v + 1, h.max)) else {})
  {
  }

  lemma PointsCons(h: Range, t: seq<Range>)
    ensures Points([h] + t) == Span(h) + Points(t)
  {
    assert ([h] + t)[0] == h && ([h] + t)[1..] == t;
  }

  /** Splits the first range around `v`, which it must hold. */
  function SplitFirst(rs: seq<Range>, v: nat): (r: seq<Range>)
    requires Coalesced(rs) && rs != [] && Contains(rs[0], v)
    ensures Coalesced(r)
    ensures Points(r) == Points(rs) - {v}
    ensures r != [] ==> rs[0].min <= r[0].min
  {
    var upper := UpperPart(rs, v);
    SplitFirstPoints(rs, v);
    if rs[0].min < v then
      var lower := Range(rs[0].min, v - 1);
      ConsCoalesced(lower, upper);
      PointsCons(lower, upper);
      [lower] + upper
    else upper
  }

  /** What is left of the first range above `v`, followed by the ranges after it. */
  function UpperPart(rs: seq<Range>, v: nat): (r: seq<Range>)
    requires Coalesced(rs) && rs != [] && Contains(rs[0], v)
    ensures Coalesced(r)
    ensures Points(r) == (if v < rs[0].max then Span(Range(v + 1, rs[0].max)) else {}) + Points(rs[1..])
    ensures r != [] ==> v < r[0].min
  {
    CoalescedTail(rs);
    assert |rs| > 1 ==> Apart(rs, 0, 1);
    if v < rs[0].max then
      var hi := Range(v + 1, rs[0].max);
      ConsCoalesced(hi, rs[1..]);
      PointsCons(hi, rs[1..]);
      [hi] + rs[1..]
    else
      rs[1..]
  }

  lemma SplitFirstPoints(rs: seq<Range>, v: nat)
    requires Coalesced(rs) && rs != [] && Contains(rs[0], v)
    ensures Points(rs) - {v} ==
      (if rs[0].min < v then Span(Range(rs[0].min, v - 1)) else {}) +
      (if v < rs[0].max then Span(Range(v + 1, rs[0].max)) else {}) +
      Points(rs[1..])
  {
    var t := rs[1..];
    CoalescedTail(rs);
    if t != [] {
      FirstIsLowest(t);
      assert Apart(rs, 0, 1);
    }
    assert v !in Points(t);
    SpanSplit(rs[0], v);
  }

  /** Marks `v` used, splitting the range that holds it (if any). */
  function Remove(rs: seq<Range>, v: nat): (r: seq<Range>)
    requires Coalesced(rs)
    ensures Coalesced(r)
    ensures Points(r) == Points(rs) - {v}
    ensures r != [] ==> rs != [] && rs[0].min <= r[0].min
    decreases |rs|
  {
    if rs == [] then []
    else if rs[0].max < v then
      CoalescedTail(rs);
      assert |rs| > 1 ==> Apart(rs, 0, 1);
      var tail := Remove(rs[1..], v);
      ConsCoalesced(rs[0], tail);
      [rs[0]] + tail
    else if v < rs[0].min then
      FirstIsLowest(rs);
      rs
    else
      SplitFirst(rs, v)
  }
}

/**
 * The iterator over the indices in use: it walks `[0, end)` and jumps over
 * each free range, using a cursor over the ranges in ascending order.
 */
module Iter {
  import opened Wrappers
  import opened Ranges

  /** Strictly increasing. */
  ghost predicate Ascending(s: seq<nat>) {
    forall i, j :: 0 <= i < j < |s| ==> s[i] < s[j]
  }

  /** The indices in `[0, end)` that no range covers: the ones in use. */
  ghost predicate Uncovered(rs: seq<Range>, end: nat, v: nat) {
    v < end && !Covers(rs, v)
  }

  /**
   * The range cursor after `consumed` ranges were fetched: `next` is the
   * following range and `rest` the ones after it.
   */
  ghost predicate Cursor(all: seq<Range>, consumed: nat, next: Option<Range>, rest: seq<Range>) {
    consumed <= |all| &&
    (consumed < |all| ==> next == Some(all[consumed]) && rest == all[consumed + 1..]) &&
    (consumed == |all| ==> next == None && rest == [])
  }

  /** Fetching the range after `consumed` from the underlying set iterator. */
  lemma CursorAdvance(all: seq<Range>, consumed: nat, rest: seq<Range>, next: Option<Range>, rest': seq<Range>)
    requires consumed < |all| && rest == all[consumed + 1..]
    requires rest != [] ==> next == Some(rest[0]) && rest' == rest[1..]
    requires rest == [] ==> next == None && rest' == []
    ensures Cursor(all, consumed + 1, next, rest')
  {
  }

  /** The first `consumed` ranges lie wholly below `index`, and the next one starts above it. */
  ghost predicate Behind(all: seq<Range>, consumed: nat, index: nat) {
    consumed <= |all| &&
    (forall i :: 0 <= i < consumed ==> all[i].max < index) &&
    (consumed < |all| ==> index < all[consumed].min)
  }

  /** Stepping `index` by one that does not reach the next range. */
  lemma BehindStep(all: seq<Range>, consumed: nat, index: nat, index': nat)
    requires Behind(all, consumed, index) && index' == index + 1
    requires consumed < |all| ==> index' != all[consumed].min
    ensures Behind(all, consumed, index')
  {
  }

  /** Jumping `index` past the next range. */
  lemma BehindJump(all: seq<Range>, consumed: nat, index: nat, consumed': nat, index': nat)
    requires Coalesced(all) && Behind(all, consumed, index) && consumed < |all|
    requires consumed' == consumed + 1 && index' == all[consumed].max + 1
    ensures Behind(all, consumed', index')
  {
    if consumed + 1 < |all| {
      assert Apart(all, consumed, consumed + 1);
    }
  }

  /** `ys` holds exactly the indices below `upto` that no range covers. */
  ghost predicate YieldedBelow(ys: seq<nat>, rs: seq<Range>, upto: nat) {
    forall v: nat :: v in ys <==> Uncovered(rs, upto, v)
  }

  /** Yielding an uncovered `value` and skipping to `upto` over covered indices. */
  lemma YieldStep(ys: seq<nat>, rs: seq<Range>, value: nat, upto: nat)
    requires YieldedBelow(ys, rs, value) && !Covers(rs, value) && value < upto
    requires forall v: nat :: value < v < upto ==> Covers(rs, v)
    ensures YieldedBelow(ys + [value], rs, upto)
  {
  }

  class IndexIter {
    /** All ranges the iterator was built from. */
    ghost const all: seq<Range>
    const end: nat
    /** The ranges not yet fetched from the underlying set iterator. */
    var free_ranges: seq<Range>
    /** The next range to jump over, if any. */
    var next_range: Option<Range>
    var index: nat
    /** How many ranges lie wholly behind `index`. */
    ghost var consumed: nat
    /** The values returned so far. */
    ghost var yielded: seq<nat>

    ghost predicate Valid()
      reads this
    {
      Coalesced(all) && Bounded(all, end) &&
      index <= end &&
      Cursor(all, consumed, next_range, free_ranges) &&
      Behind(all, consumed, index) &&
      Ascending(yielded) && YieldedBelow(yielded, all, index)
    }

    /** Builds the iterator, skipping a free range that starts at 0. */
    constructor (ranges: seq<Range>, end: nat)
      requires Coalesced(ranges) && Bounded(ranges, end)
      ensures Valid()
      ensures all == ranges && this.end == end && yielded == []
    {
      var rest := ranges;
      var first: Option<Range> := None;
      if rest != [] {
        first := Some(rest[0]);
        rest := rest[1..];
      }
      var start: nat := 0;
      ghost var skipped: nat := 0;
      if first.Some? && first.value.min == 0 {
        start := first.value.max + 1;
        skipped := 1;
        first := None;
        assert |ranges| > 1 ==> Apart(ranges, 0, 1);
        if rest != [] {
          first := Some(rest[0]);
          rest := rest[1..];
        }
      }
      all := ranges;
      this.end := end;
      free_ranges := rest;
      next_range := first;
      index := start;
      consumed := skipped;
      yielded := [];
      new;
      forall v: nat | v < index
        ensures Covers(all, v)
      {
        assert Contains(all[0], v);
      }
    }

    /** Returns the current index and steps past it, jumping over the next range when it starts there. */
    method Next() returns (item: Option<nat>)
      requires Valid()
      modifies this
      ensures Valid()
      ensures old(index) == end ==> item == None && index == old(index) && yielded == old(yielded)
      ensures old(index) < end ==> item == Some(old(index)) && old(index) < index
      ensures old(index) < end ==> yielded == old(yielded) + [old(index)]
    {
      if index == end {
        return None;
      }
      var value := index;
      NotCovered();
      AscendingAppend(yielded, value);
      ghost var before := yielded;
      index := index + 1;
      yielded := yielded + [value];
      if next_range.Some? && index == next_range.value.min {
        var range := next_range.value;
        ghost var (consumedBefore, restBefore) := (consumed, free_ranges);
        index := range.max + 1;
        consumed := consumed + 1;
        if free_ranges != [] {
          next_range := Some(free_ranges[0]);
          free_ranges := free_ranges[1..];
        } else {
          next_range := None;
        }
        BehindJump(all, consumedBefore, value, consumed, index);
        CursorAdvance(all, consumedBefore, restBefore, next_range, free_ranges);
        forall v: nat | value < v < index
          ensures Covers(all, v)
        {
          assert Contains(all[consumed - 1], v);
        }
      } else {
        BehindStep(all, consumed, value, index);
      }
      YieldStep(before, all, value, index);
      return Some(value);
    }

    /** Below `end`, the index the cursor stands on is in use. */
    lemma NotCovered()
      requires Valid() && index < end
      ensures !Covers(all, index)
    {
      forall i | 0 <= i < |all|
        ensures !Contains(all[i], index)
      {
        if i > consumed {
          assert Apart(all, consumed, i);
        }
      }
    }
  }

  /** Appending a value above every element keeps a sequence ascending. */
  lemma AscendingAppend(s: seq<nat>, x: nat)
    requires Ascending(s) && forall v :: v in s ==> v < x
    ensures Ascending(s + [x])
  {
    forall k | 0 <= k < |s|
      ensures s[k] < x
    {
      assert s[k] in s;
    }
  }

  /** Drains a fresh iterator. */
  method Collect(it: IndexIter) returns (out: seq<nat>)
    requires it.Valid() && it.yielded == []
    modifies it
    ensures it.Valid() && it.index == it.end && it.yielded == out
    ensures Ascending(out)
    ensures forall v :: v in out <==> Uncovered(it.all, it.end, v)
  {
    out := [];
    var item := it.Next();
    while item.Some?
      invariant it.Valid()
      invariant item.Some? ==> it.yielded == out + [item.value]
      invariant item.None? ==> it.yielded == out && it.index == it.end
      decreases it.end - it.index + (if item.Some? then 1 else 0)
    {
      out := out + [item.value];
      item := it.Next();
    }
  }

  /** The distinct values of a sequence. */
  ghost function Elements(s: seq<nat>): set<nat> {
    set x | x in s
  }

  /** An ascending sequence has as many distinct elements as entries. */
  lemma {:induction false} AscendingCard(s: seq<nat>)
    requires Ascending(s)
    ensures |Elements(s)| == |s|
  {
    if s != [] {
      var rest := s[1..];
      assert Ascending(rest) by {
        forall i, j | 0 <= i < j < |rest|
          ensures rest[i] < rest[j]
        {
          assert rest[i] == s[i + 1] && rest[j] == s[j + 1];
        }
      }
      AscendingCard(rest);
      assert Elements(s) == {s[0]} + Elements(rest) by {
        assert s == [s[0]] + rest;
      }
      assert s[0] !in Elements(rest) by {
        forall k | 0 <= k < |rest|
          ensures rest[k] != s[0]
        {
          assert rest[k] == s[k + 1];
        }
      }
    }
  }

  /** Past the head, an ascending sequence is ascending and above its head. */
  lemma AscendingTail(s: seq<nat>)
    requires Ascending(s) && s != []
    ensures Ascending(s[1..])
    ensures forall v :: v in s[1..] ==> s[0] < v
    ensures forall v :: v in s <==> v == s[0] || v in s[1..]
  {
    var t := s[1..];
    forall i, j | 0 <= i < j < |t|
      ensures t[i] < t[j]
    {
      assert t[i] == s[i + 1] && t[j] == s[j + 1];
    }
    forall v | v in t
      ensures s[0] < v
    {
      var k :| 0 <= k < |t| && t[k] == v;
      assert s[k + 1] == v;
    }
    assert s == [s[0]] + t;
  }

  /** An ascending sequence is determined by its elements. */
  lemma {:induction false} AscendingUnique(s: seq<nat>, t: seq<nat>)
    requires Ascending(s) && Ascending(t)
    requires forall v :: v in s <==> v in t
    ensures s == t
    decreases |s|
  {
    AscendingCard(s);
    AscendingCard(t);
    assert Elements(s) == Elements(t);
    if s != [] {
      assert s[0] in s;
      assert t != [];
      AscendingTail(s);
      AscendingTail(t);
      assert s[0] == t[0] by {
        assert t[0] in t;
        assert s[0] in t && t[0] in s;
      }
      var s', t' := s[1..], t[1..];
      AscendingUnique(s', t');
      assert s == [s[0]] + s' && t == [t[0]] + t';
    }
  }

  /** The iterator yields as many indices as `end` minus the free points. */
  lemma YieldCount(s: seq<nat>, rs: seq<Range>, end: nat)
    requires Coalesced(rs) && Bounded(rs, end) && Ascending(s)
    requires forall v :: v in s <==> Uncovered(rs, end, v)
    ensures |s| == end - TotalLength(rs)
  {
    AscendingCard(s);
    PointsCard(rs);
    BelowCard(end);
    BoundedPoints(rs, end);
    PointsCovers(rs);
    assert Elements(s) == Below(end) - Points(rs);
    assert Below(end) * Points(rs) == Points(rs);
  }
}

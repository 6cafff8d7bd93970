/**
 * The range merger: `rangelist.sort()` followed by one sweep with a
 * `(currentstart, currentend)` accumulator that coalesces overlapping and
 * abutting ranges (cidrinverse.py lines 59-81).
 */
module Merger {
  import opened Wrappers
  import opened Addresses

  /** Python's ordering of `(start, end)` tuples: by start, then by end. */
  predicate LexLe(r: Range, s: Range)
  {
    r.lo < s.lo || (r.lo == s.lo && r.hi <= s.hi)
  }

  predicate SortedLex(rs: seq<Range>)
  {
    forall i, j :: 0 <= i < j < |rs| ==> LexLe(rs[i], rs[j])
  }

  /** Placing `x` after the elements not greater than it, and before the rest, keeps the list sorted. */
  lemma InsertSorted(sorted: seq<Range>, j: nat, x: Range)
    requires SortedLex(sorted) && j <= |sorted|
    requires forall k :: 0 <= k < j ==> LexLe(sorted[k], x)
    requires j < |sorted| ==> !LexLe(sorted[j], x)
    ensures SortedLex(sorted[..j] + [x] + sorted[j..])
  {
    var r := sorted[..j] + [x] + sorted[j..];
    forall a, b | 0 <= a < b < |r| ensures LexLe(r[a], r[b]) {
      if a < j && b > j {
        assert r[a] == sorted[a] && r[b] == sorted[b - 1];
      } else if a == j {
        assert r[b] == sorted[b - 1] && LexLe(sorted[j], sorted[b - 1]);
      } else if b == j {
        assert r[a] == sorted[a];
      } else if a < j {
        assert r[a] == sorted[a] && r[b] == sorted[b];
      } else {
        assert r[a] == sorted[a - 1] && r[b] == sorted[b - 1];
      }
    }
  }

  /** Inserts `x` into a sorted list after every element that is not greater than it. */
  method Insert(sorted: seq<Range>, x: Range) returns (r: seq<Range>)
    requires SortedLex(sorted)
    ensures SortedLex(r)
    ensures multiset(r) == multiset(sorted) + multiset{x}
  {
    var j := 0;
    while j < |sorted| && LexLe(sorted[j], x)
      invariant 0 <= j <= |sorted|
      invariant forall k :: 0 <= k < j ==> LexLe(sorted[k], x)
    {
      j := j + 1;
    }
    InsertSorted(sorted, j, x);
    r := sorted[..j] + [x] + sorted[j..];
    assert sorted == sorted[..j] + sorted[j..];
  }

  /**
   * `rangelist.sort()`: the ranges in ascending `(start, end)` order. The
   * library's sorting algorithm is stood in for by an insertion sort with
   * the same outcome: a sorted permutation of the input.
   */
  method SortRanges(ranges: seq<Range>) returns (sorted: seq<Range>)
    ensures SortedLex(sorted)
    ensures multiset(sorted) == multiset(ranges)
  {
    sorted := [];
    for i := 0 to |ranges|
      invariant SortedLex(sorted)
      invariant multiset(sorted) == multiset(ranges[..i])
    {
      sorted := Insert(sorted, ranges[i]);
      assert ranges[..i + 1] == ranges[..i] + [ranges[i]];
    }
    assert ranges[..|ranges|] == ranges;
  }

  /** `max(currentend, newend)`: the larger end, so the accumulated end never goes down. */
  function Max(a: nat, b: nat): (r: nat)
    ensures r >= a && r >= b
    ensures r == a || r == b
  {
    if a < b then b else a
  }

  /** A range that starts inside or just after another one joins it into one range. */
  lemma IntervalJoin(cur: Range, next: Range)
    requires cur.lo <= next.lo <= cur.hi + 1 && next.lo <= next.hi
    ensures Interval(cur.lo, cur.hi) + Interval(next.lo, next.hi) == Interval(cur.lo, Max(cur.hi, next.hi))
  {
    var hi := Max(cur.hi, next.hi);
    forall z ensures z in Interval(cur.lo, cur.hi) + Interval(next.lo, next.hi) <==> z in Interval(cur.lo, hi) {
      IntervalMember(cur.lo, cur.hi, z);
      IntervalMember(next.lo, next.hi, z);
      IntervalMember(cur.lo, hi, z);
    }
  }

  /** The addresses of the range being accumulated, if any. */
  ghost function Pending(current: Option<Range>): set<int>
  {
    if current.Some? then Interval(current.value.lo, current.value.hi) else {}
  }

  /**
   * The state of the merge sweep after the first `i` sorted ranges: the
   * closed ranges are canonical, the accumulated range is non-empty and lies
   * more than one address above them, it starts no later than the next
   * input range, and together they cover exactly the ranges swept so far.
   */
  ghost predicate Merging(sorted: seq<Range>, i: nat, merged: seq<Range>, current: Option<Range>)
  {
    && i <= |sorted|
    && (current.None? <==> i == 0)
    && (current.None? ==> merged == [])
    && Canonical(merged)
    && (current.Some? ==> current.value.lo <= current.value.hi)
    && (current.Some? && merged != [] ==> current.value.lo - merged[|merged| - 1].hi > 1)
    && (current.Some? && i < |sorted| ==> current.value.lo <= sorted[i].lo)
    && Addrs(sorted[..i]) == Addrs(merged) + Pending(current)
  }

  /** The facts every merge step needs about the sorted input. */
  predicate SortedRanges(sorted: seq<Range>)
  {
    && SortedLex(sorted)
    && forall k :: 0 <= k < |sorted| ==> sorted[k].lo <= sorted[k].hi
  }

  lemma MergeStart(sorted: seq<Range>)
    ensures Merging(sorted, 0, [], None)
  {
    assert sorted[..0] == [];
  }

  lemma SweptOneMore(sorted: seq<Range>, i: nat)
    requires i < |sorted|
    ensures Addrs(sorted[..i + 1]) == Addrs(sorted[..i]) + Interval(sorted[i].lo, sorted[i].hi)
  {
    assert sorted[..i + 1] == sorted[..i] + [sorted[i]];
    AddrsAppend(sorted[..i], sorted[i]);
  }

  /** The first range becomes the accumulated range. */
  lemma MergeFirst(sorted: seq<Range>, merged: seq<Range>)
    requires SortedRanges(sorted) && 0 < |sorted|
    requires Merging(sorted, 0, merged, None)
    ensures Merging(sorted, 1, merged, Some(sorted[0]))
  {
    SweptOneMore(sorted, 0);
    if 1 < |sorted| {
      assert LexLe(sorted[0], sorted[1]);
    }
  }

  /** A range more than one address above the accumulated one closes it and starts a new one. */
  lemma MergeClose(sorted: seq<Range>, i: nat, merged: seq<Range>, cur: Range)
    requires SortedRanges(sorted) && i < |sorted|
    requires Merging(sorted, i, merged, Some(cur))
    requires sorted[i].lo - cur.hi > 1
    ensures Merging(sorted, i + 1, merged + [cur], Some(sorted[i]))
  {
    SweptOneMore(sorted, i);
    AddrsAppend(merged, cur);
    CanonicalAppend(merged, cur);
    if i + 1 < |sorted| {
      assert LexLe(sorted[i], sorted[i + 1]);
    }
  }

  /** A range that overlaps or abuts the accumulated one can only extend its end. */
  lemma MergeExtend(sorted: seq<Range>, i: nat, merged: seq<Range>, cur: Range)
    requires SortedRanges(sorted) && i < |sorted|
    requires Merging(sorted, i, merged, Some(cur))
    requires sorted[i].lo - cur.hi <= 1
    ensures Merging(sorted, i + 1, merged, Some(Range(cur.lo, Max(cur.hi, sorted[i].hi))))
  {
    SweptOneMore(sorted, i);
    IntervalJoin(cur, sorted[i]);
    if i + 1 < |sorted| {
      assert LexLe(sorted[i], sorted[i + 1]);
    }
  }

  /** Closing the last accumulated range leaves a canonical list covering every range swept. */
  lemma MergeDone(sorted: seq<Range>, merged: seq<Range>, cur: Range)
    requires Merging(sorted, |sorted|, merged, Some(cur))
    ensures Canonical(merged + [cur])
    ensures Addrs(merged + [cur]) == Addrs(sorted)
  {
    CanonicalAppend(merged, cur);
    AddrsAppend(merged, cur);
    assert sorted[..|sorted|] == sorted;
  }

  /** A permutation of non-empty ranges, sorted, satisfies what the merge sweep needs. */
  lemma SortedPermutation(ranges: seq<Range>, sorted: seq<Range>)
    requires forall i :: 0 <= i < |ranges| ==> ranges[i].lo <= ranges[i].hi
    requires SortedLex(sorted) && multiset(sorted) == multiset(ranges)
    ensures SortedRanges(sorted)
  {
    forall k | 0 <= k < |sorted| ensures sorted[k].lo <= sorted[k].hi {
      assert sorted[k] in multiset(ranges);
    }
  }

  /**
   * The merged range list: canonical (ascending, every range non-empty, no
   * two ranges overlapping or abutting) and covering exactly the addresses
   * of the input ranges.
   */
  method Merge(ranges: seq<Range>) returns (merged: seq<Range>)
    requires |ranges| > 0
    requires forall i :: 0 <= i < |ranges| ==> ranges[i].lo <= ranges[i].hi
    ensures Canonical(merged)
    ensures Addrs(merged) == Addrs(ranges)
  {
    var sorted := SortRanges(ranges);
    SortedPermutation(ranges, sorted);
    var current: Option<Range> := None;
    merged := [];
    MergeStart(sorted);
    for i := 0 to |sorted|
      invariant Merging(sorted, i, merged, current)
    {
      var next := sorted[i];
      match current
      case None =>
        MergeFirst(sorted, merged);
        current := Some(next);
      case Some(cur) =>
        if next.lo - cur.hi > 1 {
          // the ranges neither overlap nor abut: close the accumulated range
          MergeClose(sorted, i, merged, cur);
          merged := merged + [cur];
          current := Some(next);
        } else {
          // overlapping or abutting: only the end can grow
          MergeExtend(sorted, i, merged, cur);
          current := Some(Range(cur.lo, Max(cur.hi, next.hi)));
        }
    }
    // the list is not empty, so a range is still accumulated; it is closed here
    MergeDone(sorted, merged, current.value);
    merged := merged + [current.value];
    AddrsPermutation(sorted, ranges);
  }
}

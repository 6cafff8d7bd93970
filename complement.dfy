/**
 * The complement engine (cidrinverse.py lines 98-109): a cursor
 * `prevrangeep1` walks up from `ipzero` over the merged ranges and emits the
 * gaps between them, then the gap up to `ipmax` if the cursor is still live.
 * The cursor becomes `None` instead of stepping past `ipmax`.
 */
module Complement {
  import opened Wrappers
  import opened Addresses

  /** The highest address swept after the first `i` merged ranges (-1 before any). */
  function Reached(merged: seq<Range>, i: nat): int
    requires i <= |merged|
  {
    if i == 0 then -1 else merged[i - 1].hi
  }

  /*
   * The sweep below keeps everything up to the address `reached` split into
   * the gaps found so far (`inverse`) and the merged addresses (`covered`).
   * Each of the following lemmas extends that split over one more range.
   */

  /**
   * The gaps emitted so far split the addresses up to `reached`: they are
   * canonical, inside the space, end below `reached`, and cover exactly the
   * addresses up to `reached` that are not `covered`; nothing covered lies
   * above `reached`.
   */
  ghost predicate GapsUpTo(bits: nat, inverse: seq<Range>, reached: int, covered: set<int>)
  {
    && Canonical(inverse) && InSpace(bits, inverse)
    && (inverse != [] ==> inverse[|inverse| - 1].hi < reached)
    && (forall z :: z in covered ==> z <= reached)
    && Addrs(inverse) == Interval(0, reached) - covered
  }

  /** The cursor is the address after `reached`, or `None` once `reached` is `ipmax`. */
  predicate CursorAfter(bits: nat, cursor: Option<nat>, reached: int)
  {
    && reached <= IpMax(bits)
    && (cursor.None? <==> reached == IpMax(bits))
    && (cursor.Some? ==> cursor.value == reached + 1 <= IpMax(bits))
  }

  /** The cursor stops short of the next range: the gap up to its start is emitted. */
  lemma SweepGap(bits: nat, inverse: seq<Range>, covered: set<int>, reached: int, rg: Range)
    requires -1 <= reached && reached + 1 < rg.lo <= rg.hi <= IpMax(bits)
    requires GapsUpTo(bits, inverse, reached, covered)
    ensures GapsUpTo(bits, inverse + [Range(reached + 1, rg.lo - 1)], rg.hi, covered + Interval(rg.lo, rg.hi))
  {
    var gap := Range(reached + 1, rg.lo - 1);
    CanonicalAppend(inverse, gap);
    InSpaceAppend(bits, inverse, gap);
    AddrsAppend(inverse, gap);
    CoveredBelow(covered, reached, rg);
    forall z ensures z in Addrs(inverse) + Interval(gap.lo, gap.hi)
                 <==> z in Interval(0, rg.hi) - (covered + Interval(rg.lo, rg.hi)) {
      IntervalMember(0, reached, z);
      IntervalMember(gap.lo, gap.hi, z);
      IntervalMember(0, rg.hi, z);
      IntervalMember(rg.lo, rg.hi, z);
    }
  }

  /** The cursor is at the start of the next range: no gap. */
  lemma SweepNoGap(bits: nat, inverse: seq<Range>, covered: set<int>, reached: int, rg: Range)
    requires reached + 1 == rg.lo <= rg.hi
    requires GapsUpTo(bits, inverse, reached, covered)
    ensures GapsUpTo(bits, inverse, rg.hi, covered + Interval(rg.lo, rg.hi))
  {
    CoveredBelow(covered, reached, rg);
    forall z ensures z in Addrs(inverse) <==> z in Interval(0, rg.hi) - (covered + Interval(rg.lo, rg.hi)) {
      IntervalMember(0, reached, z);
      IntervalMember(0, rg.hi, z);
      IntervalMember(rg.lo, rg.hi, z);
    }
  }

  /** Sweeping one range, with or without a gap below it. */
  lemma SweepRange(bits: nat, inverse: seq<Range>, covered: set<int>, reached: int, rg: Range, inverse': seq<Range>)
    requires -1 <= reached && reached + 1 <= rg.lo <= rg.hi <= IpMax(bits)
    requires GapsUpTo(bits, inverse, reached, covered)
    requires inverse' == if reached + 1 != rg.lo then inverse + [Range(reached + 1, rg.lo - 1)] else inverse
    ensures GapsUpTo(bits, inverse', rg.hi, covered + Interval(rg.lo, rg.hi))
  {
    if reached + 1 != rg.lo {
      SweepGap(bits, inverse, covered, reached, rg);
    } else {
      SweepNoGap(bits, inverse, covered, reached, rg);
    }
  }

  /** After a range is swept, nothing covered lies above its end. */
  lemma CoveredBelow(covered: set<int>, reached: int, rg: Range)
    requires forall z :: z in covered ==> z <= reached
    requires reached < rg.lo <= rg.hi
    ensures forall z :: z in covered + Interval(rg.lo, rg.hi) ==> z <= rg.hi
  {
    forall z | z in covered + Interval(rg.lo, rg.hi) ensures z <= rg.hi {
      IntervalMember(rg.lo, rg.hi, z);
    }
  }

  /** The cursor is still live after the last range: the gap up to `ipmax` is emitted. */
  lemma SweepTail(bits: nat, inverse: seq<Range>, covered: set<int>, reached: int)
    requires -1 <= reached < IpMax(bits)
    requires GapsUpTo(bits, inverse, reached, covered)
    ensures Canonical(inverse + [Range(reached + 1, IpMax(bits))])
    ensures InSpace(bits, inverse + [Range(reached + 1, IpMax(bits))])
    ensures Addrs(inverse + [Range(reached + 1, IpMax(bits))]) == Space(bits) - covered
  {
    var gap := Range(reached + 1, IpMax(bits));
    CanonicalAppend(inverse, gap);
    InSpaceAppend(bits, inverse, gap);
    AddrsAppend(inverse, gap);
    forall z ensures z in Addrs(inverse) + Interval(gap.lo, gap.hi) <==> z in Space(bits) - covered {
      IntervalMember(0, reached, z);
      IntervalMember(gap.lo, gap.hi, z);
      IntervalMember(0, IpMax(bits), z);
    }
  }

  /** In a canonical list inside the space, only the last range can end at `ipmax`. */
  lemma BelowMaxUnlessLast(bits: nat, merged: seq<Range>, i: nat)
    requires Canonical(merged) && InSpace(bits, merged)
    requires i + 1 < |merged|
    ensures merged[i].hi < IpMax(bits)
  {
    assert merged[i + 1].lo - merged[i].hi > 1;
  }

  /**
   * The state of the sweep after the first `i` merged ranges: the cursor
   * follows the last address swept, and the gaps emitted so far are the
   * uncovered addresses up to it.
   */
  ghost predicate Swept(bits: nat, merged: seq<Range>, i: nat, inverse: seq<Range>, cursor: Option<nat>)
  {
    && i <= |merged|
    && CursorAfter(bits, cursor, Reached(merged, i))
    && GapsUpTo(bits, inverse, Reached(merged, i), Addrs(merged[..i]))
  }

  /** Nothing has been swept before the first range. */
  lemma SweepStart(bits: nat, merged: seq<Range>)
    ensures Swept(bits, merged, 0, [], Some(0))
  {
    assert merged[..0] == [];
    IntervalEmpty(0, -1);
  }

  /**
   * One step of the sweep over range `i`: a live cursor below the range's
   * start emits the gap up to it, and the cursor moves past the range (or
   * becomes `None` when the range ends at `ipmax`).
   */
  lemma SweepStep(bits: nat, merged: seq<Range>, i: nat, inverse: seq<Range>, cursor: Option<nat>,
                  inverse': seq<Range>, cursor': Option<nat>)
    requires Canonical(merged) && InSpace(bits, merged)
    requires i < |merged| && Swept(bits, merged, i, inverse, cursor)
    requires cursor.Some?
    requires inverse' == if cursor.value != merged[i].lo then inverse + [Range(cursor.value, merged[i].lo - 1)] else inverse
    requires cursor' == if merged[i].hi != IpMax(bits) then Some(merged[i].hi + 1) else None
    ensures Swept(bits, merged, i + 1, inverse', cursor')
  {
    var rg := merged[i];
    var reached := Reached(merged, i);
    var covered := Addrs(merged[..i]);
    if i > 0 {
      assert rg.lo - merged[i - 1].hi > 1;
    }
    if i + 1 < |merged| {
      BelowMaxUnlessLast(bits, merged, i);
    }
    assert cursor.value == reached + 1;
    SweepRange(bits, inverse, covered, reached, rg, inverse');
    SweptNext(bits, merged, i, inverse', cursor');
  }

  /** The sweep state after range `i`, from the state of the cursor and the gaps after it. */
  lemma SweptNext(bits: nat, merged: seq<Range>, i: nat, inverse': seq<Range>, cursor': Option<nat>)
    requires i < |merged|
    requires CursorAfter(bits, cursor', merged[i].hi)
    requires GapsUpTo(bits, inverse', merged[i].hi, Addrs(merged[..i]) + Interval(merged[i].lo, merged[i].hi))
    ensures Swept(bits, merged, i + 1, inverse', cursor')
  {
    assert merged[..i + 1] == merged[..i] + [merged[i]];
    AddrsAppend(merged[..i], merged[i]);
  }

  /** A cursor that is live at the start of a range is live while the range is swept. */
  lemma LiveBeforeRange(bits: nat, merged: seq<Range>, i: nat, inverse: seq<Range>, cursor: Option<nat>)
    requires Canonical(merged) && InSpace(bits, merged)
    requires i < |merged| && Swept(bits, merged, i, inverse, cursor)
    ensures cursor.Some?
  {
    if i > 0 {
      assert merged[i].lo - merged[i - 1].hi > 1;
    }
  }

  /** Once every range is swept, emitting the trailing gap (if the cursor is live) completes the complement. */
  lemma SweepDone(bits: nat, merged: seq<Range>, inverse: seq<Range>, cursor: Option<nat>, result: seq<Range>)
    requires Swept(bits, merged, |merged|, inverse, cursor)
    requires result == if cursor.Some? then inverse + [Range(cursor.value, IpMax(bits))] else inverse
    ensures Canonical(result) && InSpace(bits, result)
    ensures Addrs(result) == Space(bits) - Addrs(merged)
    ensures (|result| > 0 && result[|result| - 1].hi == IpMax(bits))
        <==> (merged == [] || merged[|merged| - 1].hi < IpMax(bits))
  {
    var reached := Reached(merged, |merged|);
    assert merged[..|merged|] == merged;
    assert GapsUpTo(bits, inverse, reached, Addrs(merged));
    if cursor.Some? {
      assert cursor.value == reached + 1;
      SweepTail(bits, inverse, Addrs(merged), reached);
      assert merged == [] || merged[|merged| - 1].hi < IpMax(bits);
    } else {
      AtMaxNoTail(bits, merged, inverse);
    }
  }

  /** When the last merged range ends at `ipmax`, no gap follows it and no gap reaches `ipmax`. */
  lemma AtMaxNoTail(bits: nat, merged: seq<Range>, inverse: seq<Range>)
    requires GapsUpTo(bits, inverse, Reached(merged, |merged|), Addrs(merged))
    requires Reached(merged, |merged|) == IpMax(bits)
    ensures merged != [] && merged[|merged| - 1].hi == IpMax(bits)
    ensures !(|inverse| > 0 && inverse[|inverse| - 1].hi == IpMax(bits))
  {
  }

  /**
   * The inverse range list: canonical, inside the address space, and
   * covering exactly the addresses of the space that no merged range
   * covers. It ends with a range up to `ipmax` exactly when the merged list
   * does not reach `ipmax`.
   */
  method Invert(bits: nat, merged: seq<Range>) returns (inverse: seq<Range>)
    requires Canonical(merged) && InSpace(bits, merged)
    ensures Canonical(inverse) && InSpace(bits, inverse)
    ensures Addrs(inverse) == Space(bits) - Addrs(merged)
    ensures (|inverse| > 0 && inverse[|inverse| - 1].hi == IpMax(bits))
        <==> (merged == [] || merged[|merged| - 1].hi < IpMax(bits))
  {
    inverse := [];
    var cursor: Option<nat> := Some(0);
    SweepStart(bits, merged);
    for i := 0 to |merged|
      invariant Swept(bits, merged, i, inverse, cursor)
    {
      LiveBeforeRange(bits, merged, i, inverse, cursor);
      ghost var inverse0, cursor0 := inverse, cursor;
      var rg := merged[i];
      if cursor != Some(rg.lo) {
        // a gap below this range
        inverse := inverse + [Range(cursor.value, rg.lo - 1)];
      }
      if rg.hi != IpMax(bits) {
        cursor := Some(rg.hi + 1);
      } else {
        // the range reaches the top of the space: no address and no range follows it
        cursor := None;
      }
      SweepStep(bits, merged, i, inverse0, cursor0, inverse, cursor);
    }
    ghost var inverse0 := inverse;
    if cursor.Some? {
      // the gap from the cursor up to `ipmax`
      inverse := inverse + [Range(cursor.value, IpMax(bits))];
    }
    SweepDone(bits, merged, inverse0, cursor, inverse);
  }

  /**
   * The complement is empty exactly when the merged ranges cover the whole
   * address space.
   */
  lemma EmptyComplement(bits: nat, merged: seq<Range>, inverse: seq<Range>)
    requires Canonical(inverse) && Addrs(inverse) == Space(bits) - Addrs(merged)
    ensures inverse == [] <==> Space(bits) <= Addrs(merged)
  {
    if inverse != [] {
      var r := inverse[|inverse| - 1];
      CanonicalLast(inverse);
      assert r.hi in Addrs(inverse);
    } else {
      forall x | x in Space(bits) ensures x in Addrs(merged) {
        assert x !in Addrs(inverse);
      }
    }
  }

  /**
   * Complementing the complement gives back the merged list: a canonical
   * list covering exactly the addresses of the space outside the
   * complement is the merged list itself.
   */
  lemma InverseOfInverse(bits: nat, merged: seq<Range>, inverse: seq<Range>, back: seq<Range>)
    requires Canonical(merged) && InSpace(bits, merged)
    requires Addrs(inverse) == Space(bits) - Addrs(merged)
    requires Canonical(back) && Addrs(back) == Space(bits) - Addrs(inverse)
    ensures back == merged
  {
    InSpaceAddrs(bits, merged);
    assert Addrs(back) == Addrs(merged);
    CanonicalUnique(back, merged);
  }
}

/**
 * Addresses, address families and inclusive address ranges, with the sets
 * of addresses they cover. A range list in canonical form (the shape the
 * merger produces) is determined by the set of addresses it covers.
 */
module Addresses {
  import opened Bits

  /** `ipmax`, the all-ones address of width `bits` (`ipzero` is 0). */
  function IpMax(bits: nat): nat
  {
    Pow2(bits) - 1
  }

  /** An inclusive range of addresses `lo..hi`, the `(start, end)` pairs of the tool. */
  datatype Range = Range(lo: nat, hi: nat)

  /** Every range of the list ends inside the address space. */
  predicate InSpace(bits: nat, rs: seq<Range>)
  {
    forall i :: 0 <= i < |rs| ==> rs[i].hi <= IpMax(bits)
  }

  /**
   * The merged form: every range is non-empty and each range starts more
   * than one address after the previous one ends, so successive ranges are
   * ascending and neither overlap nor abut.
   */
  predicate Canonical(rs: seq<Range>)
  {
    && (forall i :: 0 <= i < |rs| ==> rs[i].lo <= rs[i].hi)
    && (forall i :: 0 < i < |rs| ==> rs[i].lo - rs[i - 1].hi > 1)
  }

  /** `lo <= x <= hi`, named so that quantifiers over addresses have a trigger. */
  ghost predicate Between(lo: int, x: int, hi: int)
  {
    lo <= x <= hi
  }

  /** Appending a non-empty range that starts more than one address above the last end keeps a list canonical. */
  lemma CanonicalAppend(rs: seq<Range>, r: Range)
    requires Canonical(rs) && r.lo <= r.hi
    requires rs != [] ==> r.lo - rs[|rs| - 1].hi > 1
    ensures Canonical(rs + [r])
  {
  }

  lemma InSpaceAppend(bits: nat, rs: seq<Range>, r: Range)
    requires InSpace(bits, rs) && r.hi <= IpMax(bits)
    ensures InSpace(bits, rs + [r])
  {
  }

  /** The addresses lo..hi. */
  ghost function Interval(lo: int, hi: int): set<int>
  {
    set x: int | lo <= x <= hi && Between(lo, x, hi)
  }

  /** The whole address space of width `bits`, `ipzero..ipmax`. */
  ghost function Space(bits: nat): set<int>
  {
    Interval(0, IpMax(bits))
  }

  /** The addresses covered by a list of ranges. */
  ghost function Addrs(rs: seq<Range>): set<int>
  {
    if rs == [] then {} else Addrs(rs[..|rs| - 1]) + Interval(rs[|rs| - 1].lo, rs[|rs| - 1].hi)
  }

  lemma AddrsAppend(rs: seq<Range>, r: Range)
    ensures Addrs(rs + [r]) == Addrs(rs) + Interval(r.lo, r.hi)
  {
    assert (rs + [r])[..|rs|] == rs;
  }

  /** The addresses of two lists, one after the other. */
  lemma {:induction false} AddrsConcat(a: seq<Range>, b: seq<Range>)
    ensures Addrs(a + b) == Addrs(a) + Addrs(b)
    decreases |b|
  {
    if b == [] {
      assert a + b == a;
    } else {
      var n := |b| - 1;
      AddrsConcat(a, b[..n]);
      assert a + b == (a + b[..n]) + [b[n]];
      assert b == b[..n] + [b[n]];
      AddrsAppend(a + b[..n], b[n]);
      AddrsAppend(b[..n], b[n]);
    }
  }

  /** An address is covered exactly when some range of the list contains it. */
  lemma {:induction false} AddrsMember(rs: seq<Range>, x: int)
    ensures x in Addrs(rs) <==> exists i :: 0 <= i < |rs| && rs[i].lo <= x <= rs[i].hi
  {
    if rs != [] {
      var n := |rs| - 1;
      AddrsMember(rs[..n], x);
      if x in Addrs(rs[..n]) {
        var i :| 0 <= i < n && rs[..n][i].lo <= x <= rs[..n][i].hi;
        assert rs[i] == rs[..n][i];
      }
      if exists i :: 0 <= i < |rs| && rs[i].lo <= x <= rs[i].hi {
        var i :| 0 <= i < |rs| && rs[i].lo <= x <= rs[i].hi;
        if i < n {
          assert rs[..n][i] == rs[i];
        }
      }
    }
  }

  /** Permuting a list of ranges does not change the addresses it covers. */
  lemma AddrsPermutation(a: seq<Range>, b: seq<Range>)
    requires multiset(a) == multiset(b)
    ensures Addrs(a) == Addrs(b)
  {
    forall x | x in Addrs(a) ensures x in Addrs(b) {
      AddrsMember(a, x);
      var i :| 0 <= i < |a| && a[i].lo <= x <= a[i].hi;
      assert a[i] in multiset(b);
      var j :| 0 <= j < |b| && b[j] == a[i];
      AddrsMember(b, x);
    }
    forall x | x in Addrs(b) ensures x in Addrs(a) {
      AddrsMember(b, x);
      var j :| 0 <= j < |b| && b[j].lo <= x <= b[j].hi;
      assert b[j] in multiset(a);
      var i :| 0 <= i < |a| && a[i] == b[j];
      AddrsMember(a, x);
    }
  }

  /** In canonical form every range lies more than one address above all earlier ones. */
  lemma {:induction false} CanonicalOrdered(rs: seq<Range>, i: nat, j: nat)
    requires Canonical(rs) && i < j < |rs|
    ensures rs[i].hi + 1 < rs[j].lo
  {
    if i < j - 1 {
      CanonicalOrdered(rs, i, j - 1);
    }
  }

  /** Every address covered by a non-empty canonical list lies between its first start and its last end. */
  lemma {:induction false} CanonicalBounds(rs: seq<Range>)
    requires Canonical(rs) && |rs| > 0
    ensures forall x :: x in Addrs(rs) ==> rs[0].lo <= x <= rs[|rs| - 1].hi
  {
    var n := |rs| - 1;
    if n > 0 {
      var front := rs[..n];
      CanonicalBounds(front);
      assert front[0] == rs[0] && front[n - 1] == rs[n - 1];
      CanonicalOrdered(rs, 0, n);
    }
  }

  /** Dropping the last range of a canonical list leaves it canonical. */
  lemma CanonicalPrefix(rs: seq<Range>, n: nat)
    requires Canonical(rs) && n <= |rs|
    ensures Canonical(rs[..n])
  {
  }

  lemma IntervalMember(lo: int, hi: int, x: int)
    ensures x in Interval(lo, hi) <==> lo <= x <= hi
  {
    if lo <= x <= hi {
      assert Between(lo, x, hi);
    }
  }

  lemma IntervalEmpty(lo: int, hi: int)
    requires hi < lo
    ensures Interval(lo, hi) == {}
  {
  }

  /** Everything before the last range of a canonical list lies more than one address below it. */
  lemma CanonicalFront(front: seq<Range>, last: Range)
    requires Canonical(front + [last])
    ensures forall z :: z in Addrs(front) ==> z < last.lo - 1
  {
    var rs := front + [last];
    var n := |front|;
    assert rs[..n] == front;
    CanonicalPrefix(rs, n);
    if n > 0 {
      CanonicalBounds(front);
      assert front[n - 1] == rs[n - 1] && rs[n] == last;
    }
  }

  /** Removing the last range of a canonical list removes exactly its addresses. */
  lemma AddrsDropLast(rs: seq<Range>)
    requires Canonical(rs) && |rs| > 0
    ensures Addrs(rs[..|rs| - 1]) == Addrs(rs) - Interval(rs[|rs| - 1].lo, rs[|rs| - 1].hi)
  {
    var n := |rs| - 1;
    assert rs == rs[..n] + [rs[n]];
    CanonicalFront(rs[..n], rs[n]);
    forall z | z in Addrs(rs[..n]) ensures z !in Interval(rs[n].lo, rs[n].hi) {
      IntervalMember(rs[n].lo, rs[n].hi, z);
    }
  }

  /**
   * Of a non-empty canonical list, the last range is covered, nothing above
   * its end is covered, and the address just below its start is not covered.
   */
  lemma CanonicalLast(rs: seq<Range>)
    requires Canonical(rs) && |rs| > 0
    ensures forall z :: rs[|rs| - 1].lo <= z <= rs[|rs| - 1].hi ==> z in Addrs(rs)
    ensures forall z :: z in Addrs(rs) ==> z <= rs[|rs| - 1].hi
    ensures rs[|rs| - 1].lo - 1 !in Addrs(rs)
  {
    var n := |rs| - 1;
    var last := rs[n];
    assert rs == rs[..n] + [last];
    forall z | last.lo <= z <= last.hi ensures z in Addrs(rs) {
      IntervalMember(last.lo, last.hi, z);
    }
    CanonicalBounds(rs);
    CanonicalFront(rs[..n], last);
    IntervalMember(last.lo, last.hi, last.lo - 1);
  }

  /** Two non-empty canonical lists covering the same addresses end with the same range. */
  lemma CanonicalSameLast(a: seq<Range>, b: seq<Range>)
    requires Canonical(a) && Canonical(b) && Addrs(a) == Addrs(b) && |a| > 0 && |b| > 0
    ensures a[|a| - 1] == b[|b| - 1]
  {
    var x, y := a[|a| - 1], b[|b| - 1];
    CanonicalLast(a);
    CanonicalLast(b);
    // the last ranges end at the largest covered address
    assert x.hi in Addrs(b) && y.hi in Addrs(a);
    // the address just below either last range is uncovered, so the starts agree
  }

  /**
   * Canonical form is unique: two canonical lists that cover the same
   * addresses are equal. Merging is therefore idempotent, and complementing
   * twice gives back the merged list.
   */
  lemma {:induction false} CanonicalUnique(a: seq<Range>, b: seq<Range>)
    requires Canonical(a) && Canonical(b) && Addrs(a) == Addrs(b)
    ensures a == b
    decreases |a|
  {
    if a == [] || b == [] {
      if a != [] {
        var r := a[|a| - 1];
        IntervalMember(r.lo, r.hi, r.hi);
      }
      if b != [] {
        var r := b[|b| - 1];
        IntervalMember(r.lo, r.hi, r.hi);
      }
    } else {
      var m, n := |a| - 1, |b| - 1;
      CanonicalSameLast(a, b);
      AddrsDropLast(a);
      AddrsDropLast(b);
      CanonicalPrefix(a, m);
      CanonicalPrefix(b, n);
      CanonicalUnique(a[..m], b[..n]);
      assert a == a[..m] + [a[m]] && b == b[..n] + [b[n]];
    }
  }

  /** The ranges of a list inside the space cover only addresses of the space. */
  lemma InSpaceAddrs(bits: nat, rs: seq<Range>)
    requires InSpace(bits, rs)
    ensures Addrs(rs) <= Space(bits)
  {
    forall x | x in Addrs(rs) ensures x in Space(bits) {
      AddrsMember(rs, x);
      IntervalMember(0, IpMax(bits), x);
    }
  }

  /** A canonical list that covers only addresses of the space lies inside the space. */
  lemma CanonicalInSpace(bits: nat, rs: seq<Range>)
    requires Canonical(rs) && Addrs(rs) <= Space(bits)
    ensures InSpace(bits, rs)
  {
    forall i | 0 <= i < |rs| ensures rs[i].hi <= IpMax(bits) {
      AddrsMember(rs, rs[i].hi);
      IntervalMember(0, IpMax(bits), rs[i].hi);
    }
  }
}

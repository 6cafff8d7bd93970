/**
 * The CIDR decomposition (cidrinverse.py lines 128-147): each inverse range
 * is cut, from its start upwards, into the largest block that is aligned at
 * the current start and no longer than what remains of the range.
 */
module Decomposer {
  import opened Bits
  import opened Addresses

  /** A CIDR block `base/prefixLen`, the `ip_network((start, mask))` of the tool. */
  datatype Cidr = Cidr(base: nat, prefixLen: nat)

  /** The number of host bits of a block in a space of width `bits`. */
  function HostBits(bits: nat, c: Cidr): nat
  {
    if c.prefixLen <= bits then bits - c.prefixLen else 0
  }

  /** The addresses of a block, as an inclusive range. */
  function BlockRange(bits: nat, c: Cidr): Range
  {
    Range(c.base, c.base + Pow2(HostBits(bits, c)) - 1)
  }

  /**
   * A well-formed network: its prefix length is between 0 and `bits`, its
   * host bits are zero (the strict check of `ip_network`), and it lies
   * inside the address space.
   */
  predicate ValidCidr(bits: nat, c: Cidr)
  {
    && c.prefixLen <= bits
    && Aligned(c.base, bits - c.prefixLen)
    && BlockRange(bits, c).hi <= IpMax(bits)
  }

  /**
   * The block cannot be doubled without leaving the range that ends at
   * `hi`: it is already the whole space, or its base is not aligned to the
   * doubled size, or the doubled block would run past `hi`.
   */
  predicate Maximal(bits: nat, c: Cidr, hi: nat)
  {
    || HostBits(bits, c) == bits
    || !Aligned(c.base, HostBits(bits, c) + 1)
    || c.base + Pow2(HostBits(bits, c) + 1) - 1 > hi
  }

  /** Two neighbouring blocks of one size that together form the aligned block of twice that size. */
  predicate Mergeable(bits: nat, a: Cidr, b: Cidr)
  {
    && a.prefixLen == b.prefixLen
    && 0 < a.prefixLen <= bits
    && b.base == BlockRange(bits, a).hi + 1
    && Aligned(a.base, HostBits(bits, a) + 1)
  }

  /** The ranges of a list of blocks. */
  function Spans(bits: nat, blocks: seq<Cidr>): (r: seq<Range>)
    ensures |r| == |blocks|
    ensures forall k :: 0 <= k < |blocks| ==> r[k] == BlockRange(bits, blocks[k])
  {
    if blocks == [] then [] else Spans(bits, blocks[..|blocks| - 1]) + [BlockRange(bits, blocks[|blocks| - 1])]
  }

  /**
   * The blocks cut from a range that ends at `hi`: each is well formed,
   * ends no later than `hi` and is maximal, and each starts right after the
   * previous one ends.
   */
  predicate Tiling(bits: nat, hi: nat, blocks: seq<Cidr>)
  {
    && (forall k :: 0 <= k < |blocks| ==>
          ValidCidr(bits, blocks[k]) && BlockRange(bits, blocks[k]).hi <= hi && Maximal(bits, blocks[k], hi))
    && (forall k :: 0 < k < |blocks| ==> blocks[k].base == BlockRange(bits, blocks[k - 1]).hi + 1)
  }

  function Min(a: nat, b: nat): nat
  {
    if a < b then a else b
  }

  /**
   * The state of the loop over one range: `start` stays inside the range
   * (so it never passes `ipmax`), the blocks emitted so far tile the range
   * from its start up to `start`, and `length` counts the addresses left
   * from `start` to the end of the range; once it is 0 the last block ends
   * at the end of the range.
   */
  predicate Cutting(bits: nat, rg: Range, blocks: seq<Cidr>, start: nat, length: int)
  {
    && rg.lo <= start <= rg.hi
    && 0 <= length
    && Tiling(bits, rg.hi, blocks)
    && (blocks == [] ==> start == rg.lo && length == rg.hi - rg.lo + 1)
    && (blocks != [] ==> blocks[0].base == rg.lo)
    && (length > 0 ==> start + length - 1 == rg.hi)
    && (length > 0 && blocks != [] ==> BlockRange(bits, blocks[|blocks| - 1]).hi + 1 == start)
    && (length == 0 ==> blocks != [] && BlockRange(bits, blocks[|blocks| - 1]).hi == rg.hi)
  }

  /**
   * The block chosen at `start`: with `invmask` the smaller of the trailing
   * zero count of `start` (bounded by `bits`) and `length.bit_length() - 1`,
   * the block of 2^invmask addresses at `start` is well formed, fits in what
   * remains of the range, and is maximal.
   */
  lemma {:induction false} ChosenBlock(bits: nat, hi: nat, start: nat, length: nat, tz: nat, invmask: nat)
    requires hi <= IpMax(bits) && length > 0 && start + length - 1 == hi
    requires tz <= bits && Aligned(start, tz) && (tz == bits || Bit(start, tz) == 1)
    requires invmask == Min(tz, BitLength(length) - 1)
    ensures invmask <= tz && Pow2(invmask) <= length
    ensures ValidCidr(bits, Cidr(start, bits - invmask))
    ensures Maximal(bits, Cidr(start, bits - invmask), hi)
  {
    var m := BitLength(length) - 1;
    Pow2Monotone(invmask, m);
    AlignedWeaken(start, invmask, tz);
    var c := Cidr(start, bits - invmask);
    assert HostBits(bits, c) == invmask;
    if invmask < bits {
      if invmask == tz {
        AlignedStep(start, tz);
      } else {
        assert invmask == m;
        assert Pow2(m + 1) > length;
      }
    }
  }

  lemma CuttingStart(bits: nat, rg: Range)
    requires rg.lo <= rg.hi
    ensures Cutting(bits, rg, [], rg.lo, rg.hi - rg.lo + 1)
  {
  }

  /** A well-formed maximal block placed right after the last one extends a tiling. */
  lemma TilingAppend(bits: nat, hi: nat, blocks: seq<Cidr>, c: Cidr)
    requires Tiling(bits, hi, blocks) && ValidCidr(bits, c) && BlockRange(bits, c).hi <= hi && Maximal(bits, c, hi)
    requires blocks != [] ==> c.base == BlockRange(bits, blocks[|blocks| - 1]).hi + 1
    ensures Tiling(bits, hi, blocks + [c])
  {
    var blocks' := blocks + [c];
    forall k | 0 < k < |blocks'| ensures blocks'[k].base == BlockRange(bits, blocks'[k - 1]).hi + 1 {
      if k < |blocks| {
        assert blocks'[k] == blocks[k] && blocks'[k - 1] == blocks[k - 1];
      } else {
        assert blocks'[k - 1] == blocks[|blocks| - 1];
      }
    }
  }

  /** Emitting the chosen block and moving past it keeps the loop state. */
  lemma CuttingStep(bits: nat, rg: Range, blocks: seq<Cidr>, start: nat, length: int, tz: nat, invmask: nat,
                    start': nat, length': int)
    requires rg.hi <= IpMax(bits)
    requires Cutting(bits, rg, blocks, start, length) && length > 0
    requires tz <= bits && Aligned(start, tz) && (tz == bits || Bit(start, tz) == 1)
    requires invmask == Min(tz, BitLength(length) - 1)
    requires length' == length - Pow2(invmask)
    requires start' == if length' > 0 then start + Pow2(invmask) else start
    ensures invmask <= bits
    ensures Cutting(bits, rg, blocks + [Cidr(start, bits - invmask)], start', length')
    ensures length' < length
  {
    ChosenBlock(bits, rg.hi, start, length, tz, invmask);
    var c := Cidr(start, bits - invmask);
    assert HostBits(bits, c) == invmask;
    assert BlockRange(bits, c).hi == start + Pow2(invmask) - 1;
    TilingAppend(bits, rg.hi, blocks, c);
    var blocks' := blocks + [c];
    assert blocks'[|blocks'| - 1] == c;
    if blocks != [] {
      assert blocks'[0] == blocks[0];
    }
  }

  /** A contiguous list of non-empty ranges covers exactly the addresses from its first start to its last end. */
  lemma {:induction false} ContiguousAddrs(rs: seq<Range>)
    requires |rs| > 0
    requires forall k :: 0 <= k < |rs| ==> rs[k].lo <= rs[k].hi
    requires forall k :: 0 < k < |rs| ==> rs[k].lo == rs[k - 1].hi + 1
    ensures rs[0].lo <= rs[|rs| - 1].hi
    ensures Addrs(rs) == Interval(rs[0].lo, rs[|rs| - 1].hi)
  {
    var n := |rs| - 1;
    var last := rs[n];
    assert rs == rs[..n] + [last];
    AddrsAppend(rs[..n], last);
    if n == 0 {
      assert rs[..n] == [];
    } else {
      var front := rs[..n];
      ContiguousAddrs(front);
      assert front[0] == rs[0] && front[n - 1] == rs[n - 1];
      assert last.lo == rs[n - 1].hi + 1;
      forall z ensures z in Interval(rs[0].lo, rs[n - 1].hi) + Interval(last.lo, last.hi)
                   <==> z in Interval(rs[0].lo, last.hi) {
        IntervalMember(rs[0].lo, rs[n - 1].hi, z);
        IntervalMember(last.lo, last.hi, z);
        IntervalMember(rs[0].lo, last.hi, z);
      }
    }
  }

  /** A tiling from `lo` whose last block ends at `hi` covers exactly `lo..hi`. */
  lemma TilingCovers(bits: nat, lo: nat, hi: nat, blocks: seq<Cidr>)
    requires Tiling(bits, hi, blocks) && |blocks| > 0
    requires blocks[0].base == lo && BlockRange(bits, blocks[|blocks| - 1]).hi == hi
    ensures Addrs(Spans(bits, blocks)) == Interval(lo, hi)
  {
    var rs := Spans(bits, blocks);
    ContiguousAddrs(rs);
  }

  /**
   * Cuts the range `rg` into CIDR blocks, as the inner `while length > 0`
   * loop does: the blocks are well formed and maximal, the first starts at
   * the start of the range, each starts right after the previous one, the
   * last ends at the end of the range, and together they cover exactly the
   * range.
   */
  method DecomposeRange(bits: nat, rg: Range) returns (blocks: seq<Cidr>)
    requires rg.lo <= rg.hi <= IpMax(bits)
    ensures |blocks| > 0
    ensures Tiling(bits, rg.hi, blocks)
    ensures blocks[0].base == rg.lo
    ensures BlockRange(bits, blocks[|blocks| - 1]).hi == rg.hi
    ensures Addrs(Spans(bits, blocks)) == Interval(rg.lo, rg.hi)
  {
    blocks := [];
    var start: nat := rg.lo;
    var length: int := rg.hi - rg.lo + 1;
    CuttingStart(bits, rg);
    while length > 0
      invariant Cutting(bits, rg, blocks, start, length)
      decreases length
    {
      var startTrailingZeros := CountTrailingZeros(start, bits);
      var maxInvMaskForLength := BitLength(length) - 1;
      var invmask := Min(startTrailingZeros, maxInvMaskForLength);
      var mask := bits - invmask;
      ghost var blocks0, start0, length0 := blocks, start, length;
      blocks := blocks + [Cidr(start, mask)];
      var cidrLen := Pow2(invmask);
      length := length - cidrLen;
      if length > 0 {
        // only moved on while addresses remain, so that `start` never passes `ipmax`
        start := start + cidrLen;
      }
      CuttingStep(bits, rg, blocks0, start0, length0, startTrailingZeros, invmask, start, length);
    }
    TilingCovers(bits, rg.lo, rg.hi, blocks);
  }

  /**
   * At a given start and below a given end there is only one well-formed
   * maximal block: of two blocks at the same base, the smaller one could be
   * doubled inside the larger one.
   */
  lemma {:induction false} MaximalBlockUnique(bits: nat, hi: nat, c: Cidr, d: Cidr)
    requires ValidCidr(bits, c) && BlockRange(bits, c).hi <= hi && Maximal(bits, c, hi)
    requires ValidCidr(bits, d) && BlockRange(bits, d).hi <= hi && Maximal(bits, d, hi)
    requires c.base == d.base
    ensures c == d
  {
    var hc, hd := HostBits(bits, c), HostBits(bits, d);
    if hc < hd {
      AlignedWeaken(d.base, hc + 1, hd);
      Pow2Monotone(hc + 1, hd);
    } else if hd < hc {
      AlignedWeaken(c.base, hd + 1, hc);
      Pow2Monotone(hd + 1, hc);
    }
  }

  /**
   * The tiling is unique: two tilings of `lo..hi` by well-formed maximal
   * blocks are equal, so the greedy loop's output is the only one with the
   * properties `DecomposeRange` promises.
   */
  lemma {:induction false} TilingUnique(bits: nat, lo: nat, hi: nat, a: seq<Cidr>, b: seq<Cidr>)
    requires Tiling(bits, hi, a) && |a| > 0 && a[0].base == lo && BlockRange(bits, a[|a| - 1]).hi == hi
    requires Tiling(bits, hi, b) && |b| > 0 && b[0].base == lo && BlockRange(bits, b[|b| - 1]).hi == hi
    ensures a == b
    decreases |a|
  {
    MaximalBlockUnique(bits, hi, a[0], b[0]);
    var next := BlockRange(bits, a[0]).hi + 1;
    if |a| == 1 || |b| == 1 {
      if |a| > 1 {
        TilingTailStart(bits, hi, a);
      }
      if |b| > 1 {
        TilingTailStart(bits, hi, b);
      }
    } else {
      TilingTail(bits, hi, a);
      TilingTail(bits, hi, b);
      TilingUnique(bits, next, hi, a[1..], b[1..]);
      SameHeadSameTail(a, b);
    }
  }

  lemma SameHeadSameTail(a: seq<Cidr>, b: seq<Cidr>)
    requires |a| > 0 && |b| > 0 && a[0] == b[0] && a[1..] == b[1..]
    ensures a == b
  {
    assert a == [a[0]] + a[1..];
    assert b == [b[0]] + b[1..];
  }

  /** A block after the first one starts above the end of the first one; all blocks fit below `hi`. */
  lemma TilingTailStart(bits: nat, hi: nat, a: seq<Cidr>)
    requires Tiling(bits, hi, a) && |a| > 1
    ensures BlockRange(bits, a[0]).hi < hi
  {
    assert a[1].base == BlockRange(bits, a[0]).hi + 1;
    assert BlockRange(bits, a[1]).hi <= hi;
  }

  /** Dropping the first block of a tiling leaves a tiling of the rest of the range. */
  lemma TilingTail(bits: nat, hi: nat, a: seq<Cidr>)
    requires Tiling(bits, hi, a) && |a| > 1
    ensures Tiling(bits, hi, a[1..])
    ensures a[1..][0].base == BlockRange(bits, a[0]).hi + 1
    ensures a[1..][|a| - 2] == a[|a| - 1]
  {
    var t := a[1..];
    forall k | 0 < k < |t| ensures t[k].base == BlockRange(bits, t[k - 1]).hi + 1 {
      assert t[k] == a[k + 1] && t[k - 1] == a[k];
    }
  }

  /** Every block lies strictly above the previous one. */
  predicate Ascending(bits: nat, blocks: seq<Cidr>)
  {
    forall k :: 0 < k < |blocks| ==> BlockRange(bits, blocks[k - 1]).hi < blocks[k].base
  }

  /** No two neighbouring blocks could be replaced by the block of twice their size. */
  predicate NoMergeable(bits: nat, blocks: seq<Cidr>)
  {
    forall k :: 0 < k < |blocks| ==> !Mergeable(bits, blocks[k - 1], blocks[k])
  }

  /**
   * Neighbouring blocks of a tiling are ascending and never mergeable: two
   * equal neighbours on a boundary of twice their size would form a block
   * that fits, so the first of them would not be maximal.
   */
  lemma {:induction false} TilingNotMergeable(bits: nat, hi: nat, blocks: seq<Cidr>)
    requires Tiling(bits, hi, blocks)
    ensures Ascending(bits, blocks) && NoMergeable(bits, blocks)
  {
    forall k | 0 < k < |blocks| ensures !Mergeable(bits, blocks[k - 1], blocks[k]) {
      NeighbourNotMergeable(bits, hi, blocks[k - 1], blocks[k]);
    }
  }

  /** A maximal block is not mergeable with a next block of its size that still fits below `hi`. */
  lemma NeighbourNotMergeable(bits: nat, hi: nat, a: Cidr, b: Cidr)
    requires ValidCidr(bits, a) && Maximal(bits, a, hi)
    requires ValidCidr(bits, b) && BlockRange(bits, b).hi <= hi
    ensures !Mergeable(bits, a, b)
  {
    var h := HostBits(bits, a);
    if a.prefixLen == b.prefixLen && 0 < a.prefixLen && b.base == BlockRange(bits, a).hi + 1 {
      // the doubled block at a.base ends where b ends, inside the range, so a.base is not aligned to it
      assert Pow2(h + 1) == 2 * Pow2(h);
      assert a.base + Pow2(h + 1) - 1 == BlockRange(bits, b).hi;
    }
  }

  /** The ranges of two lists of blocks, one after the other. */
  lemma SpansConcat(bits: nat, a: seq<Cidr>, b: seq<Cidr>)
    ensures Spans(bits, a + b) == Spans(bits, a) + Spans(bits, b)
  {
    var l, r := Spans(bits, a + b), Spans(bits, a) + Spans(bits, b);
    assert |l| == |r|;
    forall k | 0 <= k < |l| ensures l[k] == r[k] {
      if k < |a| {
        assert (a + b)[k] == a[k];
      } else {
        assert (a + b)[k] == b[k - |a|];
      }
    }
  }

  /**
   * The state of the loop over the inverse ranges: the blocks emitted for
   * the first `i` ranges are well formed, ascending and never mergeable,
   * the last of them ends where range `i - 1` ends, and they cover exactly
   * the addresses of those ranges.
   */
  ghost predicate Covering(bits: nat, inverse: seq<Range>, i: nat, results: seq<Cidr>)
  {
    && i <= |inverse|
    && (forall k :: 0 <= k < |results| ==> ValidCidr(bits, results[k]))
    && Ascending(bits, results) && NoMergeable(bits, results)
    && (results == [] <==> i == 0)
    && (i > 0 ==> BlockRange(bits, results[|results| - 1]).hi == inverse[i - 1].hi)
    && Addrs(Spans(bits, results)) == Addrs(inverse[..i])
  }

  lemma CoveringStart(bits: nat, inverse: seq<Range>)
    ensures Covering(bits, inverse, 0, [])
  {
    assert inverse[..0] == [];
  }

  /** Ascending, never-mergeable lists joined across a gap of more than one address stay so. */
  lemma JoinAcrossGap(bits: nat, a: seq<Cidr>, b: seq<Cidr>)
    requires Ascending(bits, a) && NoMergeable(bits, a)
    requires Ascending(bits, b) && NoMergeable(bits, b)
    requires a != [] && b != [] ==> BlockRange(bits, a[|a| - 1]).hi + 1 < b[0].base
    ensures Ascending(bits, a + b) && NoMergeable(bits, a + b)
  {
    var c := a + b;
    forall k | 0 < k < |c|
      ensures BlockRange(bits, c[k - 1]).hi < c[k].base && !Mergeable(bits, c[k - 1], c[k])
    {
      if k < |a| {
        assert c[k - 1] == a[k - 1] && c[k] == a[k];
      } else if k == |a| {
        assert c[k - 1] == a[|a| - 1] && c[k] == b[0];
      } else {
        assert c[k - 1] == b[k - 1 - |a|] && c[k] == b[k - |a|];
      }
    }
  }

  /** Every block of two lists of well-formed blocks is well formed. */
  lemma ValidConcat(bits: nat, a: seq<Cidr>, b: seq<Cidr>)
    requires forall k :: 0 <= k < |a| ==> ValidCidr(bits, a[k])
    requires forall k :: 0 <= k < |b| ==> ValidCidr(bits, b[k])
    ensures forall k :: 0 <= k < |a + b| ==> ValidCidr(bits, (a + b)[k])
  {
    forall k | 0 <= k < |a + b| ensures ValidCidr(bits, (a + b)[k]) {
      if k < |a| {
        assert (a + b)[k] == a[k];
      } else {
        assert (a + b)[k] == b[k - |a|];
      }
    }
  }

  /** The blocks of the first `i` ranges and those of range `i` cover the first `i + 1` ranges. */
  lemma CoverOneMore(bits: nat, inverse: seq<Range>, i: nat, results: seq<Cidr>, blocks: seq<Cidr>)
    requires i < |inverse|
    requires Addrs(Spans(bits, results)) == Addrs(inverse[..i])
    requires Addrs(Spans(bits, blocks)) == Interval(inverse[i].lo, inverse[i].hi)
    ensures Addrs(Spans(bits, results + blocks)) == Addrs(inverse[..i + 1])
  {
    SpansConcat(bits, results, blocks);
    AddrsConcat(Spans(bits, results), Spans(bits, blocks));
    assert inverse[..i + 1] == inverse[..i] + [inverse[i]];
    AddrsAppend(inverse[..i], inverse[i]);
  }

  /** Appending the blocks of range `i` extends the covering state over that range. */
  lemma CoveringStep(bits: nat, inverse: seq<Range>, i: nat, results: seq<Cidr>, blocks: seq<Cidr>)
    requires Canonical(inverse) && i < |inverse|
    requires Covering(bits, inverse, i, results)
    requires |blocks| > 0 && Tiling(bits, inverse[i].hi, blocks)
    requires blocks[0].base == inverse[i].lo && BlockRange(bits, blocks[|blocks| - 1]).hi == inverse[i].hi
    requires Addrs(Spans(bits, blocks)) == Interval(inverse[i].lo, inverse[i].hi)
    ensures Covering(bits, inverse, i + 1, results + blocks)
  {
    var all := results + blocks;
    TilingNotMergeable(bits, inverse[i].hi, blocks);
    if i > 0 {
      assert inverse[i].lo - inverse[i - 1].hi > 1;
    }
    JoinAcrossGap(bits, results, blocks);
    ValidConcat(bits, results, blocks);
    CoverOneMore(bits, inverse, i, results, blocks);
    assert all[|all| - 1] == blocks[|blocks| - 1];
  }

  lemma CoveringDone(bits: nat, inverse: seq<Range>, results: seq<Cidr>)
    requires Covering(bits, inverse, |inverse|, results)
    ensures Addrs(Spans(bits, results)) == Addrs(inverse)
  {
    assert inverse[..|inverse|] == inverse;
  }

  /**
   * The outer loop over the inverse ranges: the blocks of every range in
   * turn. They are well formed, ascending, never mergeable, and cover
   * exactly the addresses of the inverse ranges.
   */
  method DecomposeAll(bits: nat, inverse: seq<Range>) returns (results: seq<Cidr>)
    requires Canonical(inverse) && InSpace(bits, inverse)
    ensures forall k :: 0 <= k < |results| ==> ValidCidr(bits, results[k])
    ensures Ascending(bits, results) && NoMergeable(bits, results)
    ensures Addrs(Spans(bits, results)) == Addrs(inverse)
    ensures |results| == 0 <==> |inverse| == 0
  {
    results := [];
    CoveringStart(bits, inverse);
    for i := 0 to |inverse|
      invariant Covering(bits, inverse, i, results)
    {
      var blocks := DecomposeRange(bits, inverse[i]);
      CoveringStep(bits, inverse, i, results, blocks);
      results := results + blocks;
    }
    CoveringDone(bits, inverse, results);
  }
}

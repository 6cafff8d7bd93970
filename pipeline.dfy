/**
 * The whole computation of cidrinverse.py: the arguments become ranges,
 * the ranges are merged, the merged list is inverted inside the address
 * space of the family (lines 88-96 pick `ipzero`, `ipmax` and `addrbits`),
 * and the inverse is cut into CIDR blocks. The three lists the tool prints
 * are the output.
 */
module Pipeline {
  import opened Bits
  import opened Wrappers
  import opened Addresses
  import opened Normalizer
  import opened Merger
  import opened Complement
  import opened Decomposer

  /** The address family of the input: IPv4 or IPv6. */
  datatype Family = V4 | V6

  /** `addrbits`: the width of an address of the family. */
  function AddrBits(f: Family): (r: nat)
    ensures r == 32 || r == 128
  {
    match f
    case V4 => 32
    case V6 => 128
  }

  /** `ipmax` is `255.255.255.255` for IPv4 and `ffff:...:ffff` for IPv6. */
  lemma FamilyLimits()
    ensures IpMax(AddrBits(V4)) == 0xFFFF_FFFF
    ensures IpMax(AddrBits(V6)) == 0xFFFF_FFFF_FFFF_FFFF_FFFF_FFFF_FFFF_FFFF
  {
    assert Pow2(8) == 256 by {
      assert Pow2(4) == 16;
    }
    Pow2Split(8, 8);
    assert Pow2(16) == 0x1_0000;
    Pow2Split(16, 16);
    assert Pow2(32) == 0x1_0000_0000;
    Pow2Split(32, 32);
    assert Pow2(64) == 0x1_0000_0000_0000_0000;
    Pow2Split(64, 64);
    assert Pow2(128) == 0x1_0000_0000_0000_0000_0000_0000_0000_0000;
  }

  /** The three lists the tool prints: merged ranges, inverse ranges, inverse CIDR blocks. */
  datatype Output = Output(merged: seq<Range>, inverse: seq<Range>, cidrs: seq<Cidr>)

  /** The addresses named by a list of accepted arguments. */
  ghost function TokensAddrs(bits: nat, tokens: seq<Token>): set<int>
    requires forall i :: 0 <= i < |tokens| ==> TokenOk(bits, tokens[i])
  {
    Addrs(TokenRanges(bits, tokens))
  }

  /**
   * What a successful run promises: the merged list is canonical and covers
   * exactly the input's addresses; the inverse list is canonical and covers
   * exactly the other addresses of the space; the blocks are well formed,
   * ascending, never mergeable, and cover exactly the inverse.
   */
  ghost predicate Outcome(bits: nat, tokens: seq<Token>, o: Output)
    requires forall i :: 0 <= i < |tokens| ==> TokenOk(bits, tokens[i])
  {
    && Canonical(o.merged) && InSpace(bits, o.merged)
    && Addrs(o.merged) == TokensAddrs(bits, tokens)
    && Canonical(o.inverse) && InSpace(bits, o.inverse)
    && Addrs(o.inverse) == Space(bits) - TokensAddrs(bits, tokens)
    && (forall k :: 0 <= k < |o.cidrs| ==> ValidCidr(bits, o.cidrs[k]))
    && Ascending(bits, o.cidrs) && NoMergeable(bits, o.cidrs)
    && Addrs(Spans(bits, o.cidrs)) == Addrs(o.inverse)
  }

  /** The ranges of accepted arguments of the family are non-empty and lie in its space. */
  lemma RangesInSpace(bits: nat, tokens: seq<Token>)
    requires forall i :: 0 <= i < |tokens| ==> TokenInSpace(bits, tokens[i]) && TokenOk(bits, tokens[i])
    ensures forall i :: 0 <= i < |tokens| ==> TokenRanges(bits, tokens)[i].lo <= TokenRanges(bits, tokens)[i].hi
    ensures InSpace(bits, TokenRanges(bits, tokens))
  {
    forall i | 0 <= i < |tokens|
      ensures TokenRanges(bits, tokens)[i].lo <= TokenRanges(bits, tokens)[i].hi <= IpMax(bits)
    {
      TokenRangeInSpace(bits, tokens[i]);
    }
  }

  /**
   * Runs the tool on the arguments of one family. The run fails exactly
   * when some argument is refused, naming the first one; otherwise its
   * output is as `Outcome` describes.
   */
  method Run(f: Family, tokens: seq<Token>) returns (result: Result<Output, Error>)
    requires |tokens| > 0
    requires forall i :: 0 <= i < |tokens| ==> TokenInSpace(AddrBits(f), tokens[i])
    ensures result.Success? <==> forall i :: 0 <= i < |tokens| ==> TokenOk(AddrBits(f), tokens[i])
    ensures result.Failure? ==>
              exists i :: 0 <= i < |tokens| && !TokenOk(AddrBits(f), tokens[i]) && result.error == TokenError(tokens[i], i)
                       && forall j :: 0 <= j < i ==> TokenOk(AddrBits(f), tokens[j])
    ensures result.Success? ==> Outcome(AddrBits(f), tokens, result.value)
  {
    var bits := AddrBits(f);
    var ranges := Normalize(bits, tokens);
    if ranges.Failure? {
      return Failure(ranges.error);
    }
    RangesInSpace(bits, tokens);
    var merged := Merge(ranges.value);
    InSpaceAddrs(bits, ranges.value);
    CanonicalInSpace(bits, merged);
    var inverse := Invert(bits, merged);
    var cidrs := DecomposeAll(bits, inverse);
    return Success(Output(merged, inverse, cidrs));
  }

  /** The blocks of the output, given back to the tool as `a/n` arguments. */
  function AsTokens(cidrs: seq<Cidr>): (r: seq<Token>)
    ensures |r| == |cidrs|
    ensures forall k :: 0 <= k < |cidrs| ==> r[k] == Block(cidrs[k].base, cidrs[k].prefixLen)
  {
    seq(|cidrs|, k requires 0 <= k < |cidrs| => Block(cidrs[k].base, cidrs[k].prefixLen))
  }

  /** Well-formed blocks are accepted arguments of the family, and read back as their own ranges. */
  lemma BlocksReadBack(bits: nat, cidrs: seq<Cidr>)
    requires forall k :: 0 <= k < |cidrs| ==> ValidCidr(bits, cidrs[k])
    ensures forall k :: 0 <= k < |cidrs| ==> TokenInSpace(bits, AsTokens(cidrs)[k]) && TokenOk(bits, AsTokens(cidrs)[k])
    ensures TokenRanges(bits, AsTokens(cidrs)) == Spans(bits, cidrs)
  {
    var l, r := TokenRanges(bits, AsTokens(cidrs)), Spans(bits, cidrs);
    forall k | 0 <= k < |cidrs| ensures l[k] == r[k] {
      assert HostBits(bits, cidrs[k]) == bits - cidrs[k].prefixLen;
    }
  }

  /**
   * Feeding the output blocks back to the tool undoes the inversion: the
   * second run's merged list is the first run's inverse, and its inverse is
   * the first run's merged list.
   */
  lemma OutputRoundTrip(bits: nat, tokens: seq<Token>, o: Output, o2: Output)
    requires forall i :: 0 <= i < |tokens| ==> TokenOk(bits, tokens[i])
    requires Outcome(bits, tokens, o)
    requires forall k :: 0 <= k < |o.cidrs| ==> TokenOk(bits, AsTokens(o.cidrs)[k])
    requires Outcome(bits, AsTokens(o.cidrs), o2)
    ensures o2.merged == o.inverse
    ensures o2.inverse == o.merged
  {
    BlocksReadBack(bits, o.cidrs);
    CanonicalUnique(o2.merged, o.inverse);
    InverseOfInverse(bits, o.merged, o.inverse, o2.inverse);
  }
}

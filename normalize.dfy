/**
 * The input loop (cidrinverse.py lines 44-57): every argument becomes an
 * inclusive `(start, end)` range. An `a-b` argument keeps its two
 * addresses and is refused when its end lies below its start; a CIDR block
 * `a/n` (or a bare address, the block of length `addrbits`) becomes its
 * network address and its last address.
 */
module Normalizer {
  import opened Bits
  import opened Wrappers
  import opened Addresses

  /** One argument, after its addresses have been read. */
  datatype Token =
    | Span(start: nat, end: nat)
    | Block(network: nat, prefixLen: nat)

  /** Why the input was refused, with the position of the offending argument. */
  datatype Error =
    | InvalidRange(index: nat)   // `end < start` in an `a-b` argument
    | InvalidNetwork(index: nat) // a prefix longer than the address or host bits set

  /** The addresses of an argument are addresses of the family. */
  predicate TokenInSpace(bits: nat, t: Token)
  {
    match t
    case Span(s, e) => s <= IpMax(bits) && e <= IpMax(bits)
    case Block(n, _) => n <= IpMax(bits)
  }

  /**
   * The argument is accepted: a range must not end before it starts, and a
   * block's prefix length must not exceed the address width and its host
   * bits must be zero (what `ip_network` checks).
   */
  predicate TokenOk(bits: nat, t: Token)
  {
    match t
    case Span(s, e) => s <= e
    case Block(n, p) => p <= bits && Aligned(n, bits - p)
  }

  /** The error an argument that is not accepted raises, at position `i`. */
  function TokenError(t: Token, i: nat): Error
  {
    if t.Span? then InvalidRange(i) else InvalidNetwork(i)
  }

  /** The `(start, end)` pair of an accepted argument: a block runs from its network address to its last address. */
  function TokenRange(bits: nat, t: Token): Range
    requires TokenOk(bits, t)
  {
    match t
    case Span(s, e) => Range(s, e)
    case Block(n, p) => Range(n, n + Pow2(bits - p) - 1)
  }

  /** The ranges of a list of accepted arguments, in order. */
  function TokenRanges(bits: nat, tokens: seq<Token>): (r: seq<Range>)
    requires forall i :: 0 <= i < |tokens| ==> TokenOk(bits, tokens[i])
    ensures |r| == |tokens|
    ensures forall i :: 0 <= i < |tokens| ==> r[i] == TokenRange(bits, tokens[i])
  {
    seq(|tokens|, i requires 0 <= i < |tokens| => TokenRange(bits, tokens[i]))
  }

  /**
   * The range of an accepted argument in the family's space is non-empty
   * and lies in the space; a block's range starts at a multiple of its size
   * and its size is 2^(bits - prefixLen).
   */
  lemma {:induction false} TokenRangeInSpace(bits: nat, t: Token)
    requires TokenInSpace(bits, t) && TokenOk(bits, t)
    ensures TokenRange(bits, t).lo <= TokenRange(bits, t).hi <= IpMax(bits)
    ensures t.Block? ==> (&& Aligned(TokenRange(bits, t).lo, bits - t.prefixLen)
                          && TokenRange(bits, t).hi - TokenRange(bits, t).lo + 1 == Pow2(bits - t.prefixLen))
  {
    if t.Block? {
      var n, h := t.network, bits - t.prefixLen;
      // n is a multiple of 2^h below 2^bits, so n + 2^h <= 2^bits
      BlockFits(n, h, bits);
    }
  }

  /** A multiple of 2^h below 2^bits leaves room for a whole block of 2^h addresses, when h <= bits. */
  lemma {:induction false} BlockFits(n: nat, h: nat, bits: nat)
    requires h <= bits && n < Pow2(bits) && Aligned(n, h)
    ensures n + Pow2(h) <= Pow2(bits)
  {
    var p := Pow2(h);
    var q := n / p;
    MultipleOf(n, p);
    Pow2Split(h, bits - h);
    NextMultiple(q, Pow2(bits - h), p);
  }

  /** A number with remainder 0 is its quotient times the divisor. */
  lemma MultipleOf(n: nat, p: nat)
    requires p > 0 && n % p == 0
    ensures n == (n / p) * p
  {
  }

  /** A multiple of `p` below another multiple of `p` is at least `p` below it. */
  lemma NextMultiple(q: nat, m: nat, p: nat)
    requires q * p < m * p
    ensures q * p + p <= m * p
  {
    MulCancel(q, m, p);
    MulMonotone(q + 1, m, p);
    assert (q + 1) * p == q * p + p;
  }

  lemma MulCancel(a: nat, b: nat, d: nat)
    requires a * d < b * d
    ensures a < b
  {
    if a >= b {
      MulMonotone(b, a, d);
    }
  }

  lemma MulMonotone(a: nat, b: nat, d: nat)
    requires a <= b
    ensures a * d <= b * d
  {
  }

  /**
   * Reads the arguments in order into `(start, end)` ranges. The result is
   * an error exactly when some argument is not accepted, and then it names
   * the first such argument; otherwise it holds the range of every
   * argument, in order.
   */
  method Normalize(bits: nat, tokens: seq<Token>) returns (result: Result<seq<Range>, Error>)
    ensures result.Success? <==> forall i :: 0 <= i < |tokens| ==> TokenOk(bits, tokens[i])
    ensures result.Success? ==> result.value == TokenRanges(bits, tokens)
    ensures result.Failure? ==>
              exists i :: 0 <= i < |tokens| && !TokenOk(bits, tokens[i]) && result.error == TokenError(tokens[i], i)
                       && forall j :: 0 <= j < i ==> TokenOk(bits, tokens[j])
  {
    var rangeList: seq<Range> := [];
    for i := 0 to |tokens|
      invariant forall j :: 0 <= j < i ==> TokenOk(bits, tokens[j])
      invariant rangeList == TokenRanges(bits, tokens[..i])
    {
      var start: nat, end: nat;
      match tokens[i] {
        case Span(s, e) =>
          if e < s {
            // an `a-b` argument whose end lies below its start
            return Failure(InvalidRange(i));
          }
          start, end := s, e;
        case Block(n, p) =>
          if p > bits || n % Pow2(bits - p) != 0 {
            return Failure(InvalidNetwork(i));
          }
          // the network address and the broadcast address
          start, end := n, n + Pow2(bits - p) - 1;
      }
      assert Range(start, end) == TokenRange(bits, tokens[i]);
      rangeList := rangeList + [Range(start, end)];
      assert tokens[..i + 1][i] == tokens[i];
      assert rangeList == TokenRanges(bits, tokens[..i + 1]);
    }
    assert tokens[..|tokens|] == tokens;
    return Success(rangeList);
  }
}

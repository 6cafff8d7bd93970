/**
 * Unbounded-integer arithmetic that the tool relies on: powers of two,
 * alignment of an address to a block size, Python's `int.bit_length`, and
 * the bounded trailing-zero count `counttrailingbinzeros`.
 */
module Bits {

  /** 2^n, the size of a block with n host bits. */
  function Pow2(n: nat): (r: nat)
    ensures r >= 1
  {
    if n == 0 then 1 else 2 * Pow2(n - 1)
  }

  /** Bit k of `value`, i.e. `(value & (1 << k)) != 0` read as 0 or 1. */
  function Bit(value: nat, k: nat): nat
  {
    (value / Pow2(k)) % 2
  }

  /** `a` is a multiple of 2^k: its low k bits are zero. */
  predicate Aligned(a: nat, k: nat)
  {
    a % Pow2(k) == 0
  }

  lemma Pow2Monotone(k: nat, m: nat)
    requires k <= m
    ensures Pow2(k) <= Pow2(m)
  {
    if k < m {
      Pow2Monotone(k, m - 1);
    }
  }

  /** 2^(h + k) == 2^k * 2^h. */
  lemma {:induction false} Pow2Split(h: nat, k: nat)
    ensures Pow2(h + k) == Pow2(k) * Pow2(h)
  {
    if k > 0 {
      Pow2Split(h, k - 1);
      assert Pow2(h + k) == 2 * Pow2(h + k - 1);
    }
  }

  lemma MulAtLeast(x: int, d: int)
    requires x >= 1 && d > 0
    ensures x * d >= d
  {
  }

  /** Division and remainder are determined by any decomposition a == q * d + r with 0 <= r < d. */
  lemma DivModUnique(a: int, d: int, q: int, r: int)
    requires d > 0 && 0 <= r < d && a == q * d + r
    ensures a / d == q && a % d == r
  {
    var q', r' := a / d, a % d;
    assert a == q' * d + r';
    if q' != q {
      var lo, hi := if q' < q then q' else q, if q' < q then q else q';
      MulAtLeast(hi - lo, d);
    }
  }

  /**
   * The low k+1 bits of `a` are zero exactly when its low k bits are zero
   * and bit k is zero; this is the step of the trailing-zero loop.
   */
  lemma {:induction false} AlignedStep(a: nat, k: nat)
    ensures Aligned(a, k + 1) <==> Aligned(a, k) && Bit(a, k) == 0
  {
    var p := Pow2(k);
    var q, r := a / p, a % p;
    var q2, b := q / 2, q % 2;
    assert Pow2(k + 1) == 2 * p;
    assert a == q2 * (2 * p) + (b * p + r) by {
      assert a == q * p + r;
      assert q == 2 * q2 + b;
      assert q * p == q2 * (2 * p) + b * p;
    }
    assert 0 <= b * p + r < 2 * p by {
      assert b == 0 || b == 1;
    }
    DivModUnique(a, 2 * p, q2, b * p + r);
    assert a % Pow2(k + 1) == b * p + r;
    if b * p + r == 0 {
      assert b == 0 && r == 0 by { assert b * p >= 0; }
    }
  }

  /** Alignment to a larger block implies alignment to every smaller one. */
  lemma {:induction false} AlignedWeaken(a: nat, k: nat, m: nat)
    requires k <= m && Aligned(a, m)
    ensures Aligned(a, k)
  {
    if k < m {
      AlignedStep(a, m - 1);
      AlignedWeaken(a, k, m - 1);
    }
  }

  /**
   * Python's `n.bit_length()`: the number of binary digits of n, the
   * unique r with 2^(r-1) <= n < 2^r when n is positive.
   */
  function BitLength(n: nat): (r: nat)
    ensures r == 0 <==> n == 0
    ensures n > 0 ==> Pow2(r - 1) <= n < Pow2(r)
  {
    if n == 0 then 0 else 1 + BitLength(n / 2)
  }

  /**
   * `counttrailingbinzeros(value, maxzeros)`: the number of trailing zero
   * bits of `value`, counting at most `maxzeros` of them.
   */
  method CountTrailingZeros(value: nat, maxZeros: nat) returns (result: nat)
    ensures result <= maxZeros
    ensures Aligned(value, result)
    ensures result == maxZeros || Bit(value, result) == 1
  {
    result := 0;
    var bit: nat := 1;
    while result < maxZeros && (value / bit) % 2 == 0
      invariant result <= maxZeros
      invariant bit == Pow2(result)
      invariant Aligned(value, result)
    {
      AlignedStep(value, result);
      result := result + 1;
      bit := bit * 2;
    }
  }
}

/** Machine-integer bounds and the rounding arithmetic shared by the kernel and the host. */
module Arith {

  /** Largest value of the 32-bit C++ `int` the source computes in. */
  const INT32_MAX: int := 0x7fff_ffff

  predicate FitsInt32(x: int) {
    -0x8000_0000 <= x <= INT32_MAX
  }

  function MaxNat(a: nat, b: nat): (m: nat) {
    if a < b then b else a
  }

  /** The quotient/remainder decomposition of non-negative division. */
  lemma DivMod(a: nat, d: nat)
    requires d >= 1
    ensures a == d * (a / d) + a % d && 0 <= a % d < d
  {
  }

  /** A positive multiple of `d` is at least `d`. */
  lemma {:induction false} MulAtLeast(d: nat, k: nat)
    requires k >= 1
    ensures d * k >= d
  {
    if k > 1 {
      MulAtLeast(d, k - 1);
      assert d * k == d * (k - 1) + d;
    }
  }

  /** Quotient and remainder are unique. */
  lemma DivUnique(a: nat, d: nat, q: nat, r: nat)
    requires d >= 1 && r < d && a == d * q + r
    ensures a / d == q && a % d == r
  {
    DivMod(a, d);
    var q', r' := a / d, a % d;
    if q > q' {
      assert d * q == d * q' + d * (q - q');
      MulAtLeast(d, q - q');
      assert false;
    } else if q < q' {
      assert d * q' == d * q + d * (q' - q);
      MulAtLeast(d, q' - q);
      assert false;
    }
  }

  /** `q * d` is a multiple of `d`. */
  lemma MultipleMod(q: nat, d: nat)
    requires d >= 1
    ensures (q * d) % d == 0 && (q * d) / d == q
  {
    DivUnique(q * d, d, q, 0);
  }

  /**
   * `((n + m - 1) / m) * m`: the least multiple of `m` that is at least `n`
   * (the idiom of gelu_custom.cpp:75 with m = 32 and main.cpp:55 with m = total_factor).
   */
  function RoundUp(n: nat, m: nat): (r: nat)
    requires m >= 1
    ensures r % m == 0
    ensures n <= r < n + m
    ensures n % m == 0 ==> r == n
  {
    RoundUpBounds(n, m);
    ((n + m - 1) / m) * m
  }

  lemma RoundUpBounds(n: nat, m: nat)
    requires m >= 1
    ensures var r := ((n + m - 1) / m) * m;
      r % m == 0 && n <= r < n + m && (n % m == 0 ==> r == n)
  {
    var q := (n + m - 1) / m;
    DivMod(n + m - 1, m);
    MultipleMod(q, m);
    if n % m == 0 {
      DivMod(n, m);
      assert n + m - 1 == m * (n / m) + (m - 1);
      DivUnique(n + m - 1, m, n / m, m - 1);
    }
  }

  /** No multiple of `m` that is at least `n` is smaller than `RoundUp(n, m)`. */
  lemma RoundUpIsLeast(n: nat, m: nat, c: nat)
    requires m >= 1 && c % m == 0 && n <= c
    ensures RoundUp(n, m) <= c
  {
    var r := RoundUp(n, m);
    DivMod(c, m);
    var q := r / m;
    assert r == m * q by { DivMod(r, m); }
    var j := c / m;
    if j < q {
      assert r == c + m * (q - j);
      MulAtLeast(m, q - j);
      assert false;
    }
  }
}

/** Integer facts the bit-level proofs rest on: powers of two, Euclidean
    division by a positive divisor, and Rust's `div_ceil`. */
module Arith {

  function Pow2(k: nat): (r: nat)
    ensures r >= 1
  {
    if k == 0 then 1 else 2 * Pow2(k - 1)
  }

  /** `u32::div_ceil`: the quotient rounded up (panics on a zero divisor). */
  function CeilDiv(a: nat, b: nat): nat
    requires b > 0
  {
    (a + b - 1) / b
  }

  lemma MulLe(a: int, c: int, b: nat)
    requires a <= c
    ensures a * b <= c * b
  {
    assert c * b - a * b == (c - a) * b;
  }

  /** Quotient and remainder are the only pair that rebuilds `p`
      (for Dafny's built-in `/` and `%`). */
  lemma EuclidUnique(p: int, m: int, q: int, r: int)
    requires m > 0 && 0 <= r < m && p == q * m + r
    ensures p / m == q && p % m == r
  {
    var q0, r0 := p / m, p % m;
    assert p == q0 * m + r0;
    if q > q0 {
      assert (q - q0) * m == q * m - q0 * m;
      MulLe(1, q - q0, m);
    } else if q < q0 {
      assert (q0 - q) * m == q0 * m - q * m;
      MulLe(1, q0 - q, m);
    }
  }

  /** `p / m` for a positive `m`, by repeated subtraction. The bit-position
      formulas below use `Div` and `Mod` rather than `/` and `%` so that the
      solver unfolds them one step at a time; `DivModAgree` shows they are
      the same operations. */
  function Div(p: nat, m: nat): nat
    requires m > 0
    decreases p
  {
    if p < m then 0 else 1 + Div(p - m, m)
  }

  /** `p % m` for a positive `m`. */
  function Mod(p: nat, m: nat): nat
    requires m > 0
    decreases p
  {
    if p < m then p else Mod(p - m, m)
  }

  lemma {:induction false} DivModOf(p: nat, m: nat)
    requires m > 0
    ensures p == Div(p, m) * m + Mod(p, m) && Mod(p, m) < m
    decreases p
  {
    if p >= m {
      DivModOf(p - m, m);
      assert (Div(p - m, m) + 1) * m == Div(p - m, m) * m + m;
    }
  }

  /** Quotient and remainder are the only pair that rebuilds `p`. */
  lemma {:induction false} DivModUnique(p: nat, m: nat, q: nat, r: nat)
    requires m > 0 && r < m && p == q * m + r
    ensures Div(p, m) == q && Mod(p, m) == r
    decreases q
  {
    if q > 0 {
      MulLe(1, q, m);
      assert (q - 1) * m == q * m - m;
      DivModUnique(p - m, m, q - 1, r);
    }
  }

  lemma DivModAgree(p: nat, m: nat)
    requires m > 0
    ensures Div(p, m) == p / m && Mod(p, m) == p % m
  {
    DivModOf(p, m);
    EuclidUnique(p, m, Div(p, m), Mod(p, m));
  }

  /** `x` lies below the rounded-up quotient exactly when `x * b` lies below `a`. */
  lemma CeilDivBound(x: nat, a: nat, b: nat)
    requires b > 0
    ensures x < CeilDiv(a, b) <==> x * b < a
  {
    var n := a + b - 1;
    var q := n / b;
    assert n == q * b + n % b;
    if x < q {
      MulLe(x + 1, q, b);
      assert (x + 1) * b == x * b + b;
    } else {
      MulLe(q + 1, x + 1, b);
      assert (q + 1) * b == q * b + b;
      assert (x + 1) * b == x * b + b;
    }
  }

  /** Powers of two grow with the exponent. */
  lemma Pow2Mono(i: nat, j: nat)
    requires i <= j
    ensures Pow2(i) <= Pow2(j)
    decreases j
  {
    if i < j { Pow2Mono(i, j - 1); }
  }

  /** Exponents add when powers of two multiply. */
  lemma {:induction false} Pow2Add(a: nat, b: nat)
    ensures Pow2(a + b) == Pow2(a) * Pow2(b)
    decreases a
  {
    if a > 0 {
      Pow2Add(a - 1, b);
      assert Pow2(a + b) == 2 * Pow2(a - 1 + b);
    }
  }

  /** The powers of two the type widths and the mask periods call for. */
  lemma Pow2Values()
    ensures Pow2(1) == 2 && Pow2(2) == 4 && Pow2(3) == 8 && Pow2(4) == 16
    ensures Pow2(6) == 64 && Pow2(8) == 0x100 && Pow2(12) == 0x1000 && Pow2(13) == 0x2000
    ensures Pow2(16) == 0x1_0000 && Pow2(24) == 0x100_0000 && Pow2(26) == 0x400_0000
    ensures Pow2(32) == 0x1_0000_0000 && Pow2(48) == 0x1_0000_0000_0000
    ensures Pow2(64) == 0x1_0000_0000_0000_0000
    ensures Pow2(96) == 0x1_0000_0000_0000_0000_0000_0000
    ensures Pow2(128) == 0x1_0000_0000_0000_0000_0000_0000_0000_0000
  {
    assert Pow2(1) == 2;
    Pow2Add(1, 1);
    assert Pow2(2) == 4;
    Pow2Add(2, 1);
    assert Pow2(3) == 8;
    Pow2Add(2, 2);
    assert Pow2(4) == 16;
    Pow2Add(3, 3);
    Pow2Add(4, 4);
    assert Pow2(8) == 0x100;
    Pow2Add(6, 6);
    assert Pow2(12) == 0x1000;
    Pow2Add(12, 1);
    assert Pow2(13) == 0x2000;
    Pow2Add(8, 8);
    assert Pow2(16) == 0x1_0000;
    Pow2Add(12, 12);
    assert Pow2(24) == 0x100_0000;
    Pow2Add(13, 13);
    assert Pow2(26) == 0x400_0000;
    Pow2Add(16, 16);
    assert Pow2(32) == 0x1_0000_0000;
    Pow2Add(24, 24);
    assert Pow2(48) == 0x1_0000_0000_0000;
    Pow2Add(32, 32);
    assert Pow2(64) == 0x1_0000_0000_0000_0000;
    Pow2Add(48, 48);
    Pow2Add(64, 64);
  }
}

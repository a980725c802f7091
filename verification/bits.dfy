/**
  JavaScript's bitwise operators `>>`, `<<`, `&` and `|`, restricted to the
  non-negative operands below 2^31 that the Base64 encoder feeds them. For such
  operands the 32-bit two's-complement conversion JavaScript performs first is the
  identity, so the operators are modelled on naturals.
*/
module Bits {

  function Pow2(k: nat): (r: nat)
    ensures r >= 1
  {
    if k == 0 then 1 else 2 * Pow2(k - 1)
  }

  /** `x >> k`: `k` single-bit shifts to the right. */
  function Shr(x: nat, k: nat): nat {
    if k == 0 then x else Shr(x / 2, k - 1)
  }

  /** `x << k` (no bit is shifted past position 31 for the operands used here) */
  function Shl(x: nat, k: nat): nat {
    x * Pow2(k)
  }

  /** `x & y`, bit by bit from the least significant bit. */
  function And(x: nat, y: nat): nat
    decreases x
  {
    if x == 0 || y == 0 then 0
    else 2 * And(x / 2, y / 2) + (if x % 2 == 1 && y % 2 == 1 then 1 else 0)
  }

  /** `x | y`, bit by bit from the least significant bit. */
  function Or(x: nat, y: nat): nat
    decreases x + y
  {
    if x == 0 then y
    else if y == 0 then x
    else 2 * Or(x / 2, y / 2) + (if x % 2 == 1 || y % 2 == 1 then 1 else 0)
  }

  /** A positive multiple of `d` is at least `d`. */
  lemma MulAtLeast(d: nat, t: nat)
    requires t >= 1
    ensures d * t >= d
  {
    assert d * t == d + d * (t - 1);
  }

  lemma MulDouble(p: nat, h: nat)
    ensures 2 * (p * h) == (2 * p) * h
  {
  }

  /** Euclidean division of naturals. */
  lemma DivMod(x: nat, d: nat)
    requires d > 0
    ensures x == d * (x / d) + x % d && 0 <= x % d < d
  {
  }

  /** Division with remainder is unique. */
  lemma DivModUnique(x: nat, d: nat, q: nat, r: nat)
    requires 0 <= r < d
    requires x == d * q + r
    ensures x / d == q && x % d == r
  {
    var q' := x / d;
    var r' := x % d;
    assert x == d * q' + r';
    if q < q' {
      assert d * q' == d * q + d * (q' - q);
      MulAtLeast(d, q' - q);
    } else if q > q' {
      assert d * q == d * q' + d * (q - q');
      MulAtLeast(d, q - q');
    }
  }

  /**
    Dividing by `2p` is halving and then dividing by `p`; the low bits below `2p`
    are the lowest bit plus twice the low bits of `x / 2` below `p`.
  */
  lemma ModDouble(x: nat, p: nat)
    requires p >= 1
    ensures x / (2 * p) == (x / 2) / p
    ensures x % (2 * p) == 2 * ((x / 2) % p) + x % 2
  {
    var q := x / 2;
    var b := x % 2;
    var low := q % p;
    var hi := q / p;
    DivMod(q, p);
    MulDouble(p, hi);
    assert x == (2 * p) * hi + (2 * low + b);
    DivModUnique(x, 2 * p, hi, 2 * low + b);
  }

  /** Masking with `2^k - 1` keeps the low `k` bits: `x & (2^k - 1) == x % 2^k`. */
  lemma {:induction false} AndLowMask(x: nat, k: nat)
    ensures And(x, Pow2(k) - 1) == x % Pow2(k)
    decreases x
  {
    if k == 0 {
      assert Pow2(k) - 1 == 0;
    } else if x == 0 {
      assert 0 % Pow2(k) == 0;
    } else {
      var p := Pow2(k - 1);
      var m := 2 * p - 1;
      DivModUnique(m, 2, p - 1, 1);
      AndLowMask(x / 2, k - 1);
      assert And(x, m) == 2 * ((x / 2) % p) + x % 2;
      ModDouble(x, p);
    }
  }

  /** Shifting right by `k` bits is division by `2^k`. */
  lemma {:induction false} ShrIsDiv(x: nat, k: nat)
    ensures Shr(x, k) == x / Pow2(k)
    decreases k
  {
    if k > 0 {
      ShrIsDiv(x / 2, k - 1);
      ModDouble(x, Pow2(k - 1));
    }
  }

  /** Or-ing a value shifted left by `k` with one below `2^k` is addition. */
  lemma {:induction false} OrDisjoint(a: nat, b: nat, k: nat)
    requires b < Pow2(k)
    ensures Or(a * Pow2(k), b) == a * Pow2(k) + b
    decreases k
  {
    if k == 0 {
    } else if a == 0 || b == 0 {
    } else {
      var p := Pow2(k - 1);
      var x := a * Pow2(k);
      assert x == 2 * (a * p);
      assert x / 2 == a * p && x % 2 == 0;
      OrDisjoint(a, b / 2, k - 1);
    }
  }
}

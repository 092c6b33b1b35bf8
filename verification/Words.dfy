/** Powers of two, Euclidean division facts and machine-word operations on naturals.

    Unsigned W-bit words are the naturals below Pow2(W); a shift is a product or
    a floor division by a power of two, and wrap-around is an explicit Wrap. */
module Words {

  function Pow2(n: nat): (p: nat)
    ensures p >= 1
  {
    if n == 0 then 1 else 2 * Pow2(n - 1)
  }

  /** Truncation to W bits, as in an unsigned conversion. */
  function Wrap(W: nat, x: int): (r: nat)
    ensures r < Pow2(W)
  {
    x % Pow2(W)
  }

  lemma {:induction false} Pow2Add(a: nat, b: nat)
    ensures Pow2(a + b) == Pow2(a) * Pow2(b)
  {
    if a == 0 {
    } else {
      Pow2Add(a - 1, b);
      MulAssoc(2, Pow2(a - 1), Pow2(b));
    }
  }

  lemma {:induction false} Pow2Mono(a: nat, b: nat)
    requires a <= b
    ensures Pow2(a) <= Pow2(b)
    ensures a < b ==> 2 * Pow2(a) <= Pow2(b)
  {
    if a < b {
      Pow2Mono(a, b - 1);
    }
  }

  lemma Pow2Reflect(a: nat, b: nat)
    requires Pow2(a) < Pow2(b)
    ensures a < b
  {
    if b <= a {
      Pow2Mono(b, a);
    }
  }

  lemma TopPower(W: nat)
    requires W > 0
    ensures Pow2(W) == 2 * Pow2(W - 1)
  {
  }

  lemma {:induction false} Pow2GtN(n: nat)
    ensures n < Pow2(n)
  {
    if n > 0 {
      Pow2GtN(n - 1);
    }
  }

  lemma MulAssoc(x: int, y: int, z: int)
    ensures (x * y) * z == x * (y * z)
  {
  }

  lemma MulComm(x: int, y: int)
    ensures x * y == y * x
  {
  }

  lemma MulMono(x: int, y: int, z: int)
    requires x <= y && 0 <= z
    ensures x * z <= y * z
    ensures z * x <= z * y
  {
  }

  lemma MulDouble(k: int, p: int)
    ensures k * (2 * p) == 2 * (k * p)
  {
  }

  lemma MulNonneg(x: int, y: int)
    requires 0 <= x && 0 <= y
    ensures 0 <= x * y
  {
  }

  lemma MulStrict(x: int, y: int, z: int)
    requires x < y && 0 < z
    ensures x * z < y * z
    ensures z * x < z * y
  {
  }

  lemma MulCancelLt(x: int, y: int, z: int)
    requires x * z < y * z && 0 < z
    ensures x < y
  {
    if x >= y {
      MulMono(y, x, z);
    }
  }

  lemma DivMod(x: int, d: int)
    requires d > 0
    ensures x == (x / d) * d + x % d
    ensures 0 <= x % d < d
  {
  }

  /** Quotient and remainder are determined by x == q*d + r with 0 <= r < d. */
  lemma DivUnique(x: int, d: int, q: int, r: int)
    requires d > 0 && x == q * d + r && 0 <= r < d
    ensures x / d == q && x % d == r
  {
    DivMod(x, d);
    var p := x / d;
    if p < q {
      MulMono(p + 1, q, d);
    } else if q < p {
      MulMono(q + 1, p, d);
    }
  }

  /** Floor quotient from the two-sided bound q*d <= x < (q+1)*d. */
  lemma DivBetween(x: int, d: int, q: int)
    requires d > 0 && q * d <= x < (q + 1) * d
    ensures x / d == q
  {
    assert (q + 1) * d == q * d + d;
    DivUnique(x, d, q, x - q * d);
  }

  lemma ModAddMultiple(x: int, k: int, d: int)
    requires d > 0
    ensures (x + k * d) % d == x % d
    ensures (x + k * d) / d == x / d + k
  {
    DivMod(x, d);
    assert (x / d + k) * d == (x / d) * d + k * d;
    DivUnique(x + k * d, d, x / d + k, x % d);
  }

  lemma DivDiv(x: int, c: int, d: int)
    requires c > 0 && d > 0
    ensures c * d > 0
    ensures (x / c) / d == x / (c * d)
  {
    MulStrict(0, c, d);
    var y := x / c;
    var q := y / d;
    DivMod(x, c);
    DivMod(y, d);
    var rest := (y % d) * c + x % c;
    MulMono(y % d, d - 1, c);
    assert (d - 1) * c == c * d - c;
    calc {
      x;
      y * c + x % c;
      (q * d + y % d) * c + x % c;
      (q * d) * c + (y % d) * c + x % c;
      q * (c * d) + rest;
    }
    MulMono(0, y % d, c);
    DivUnique(x, c * d, q, rest);
  }

  lemma WrapOfSmall(W: nat, x: int)
    requires 0 <= x < Pow2(W)
    ensures Wrap(W, x) == x
  {
    DivUnique(x, Pow2(W), 0, x);
  }

  lemma WrapShifted(W: nat, x: int, k: int)
    ensures Wrap(W, x + k * Pow2(W)) == Wrap(W, x)
  {
    ModAddMultiple(x, k, Pow2(W));
  }

  /** Logical right shift. */
  function Shr(x: nat, s: nat): (r: nat)
    ensures r <= x
  {
    DivNonneg(x, Pow2(s));
    x / Pow2(s)
  }

  /** Left shift of a W-bit word; bits shifted out are lost. */
  function Shl(W: nat, x: nat, s: nat): (r: nat)
    ensures r < Pow2(W)
  {
    Wrap(W, x * Pow2(s))
  }

  lemma DivNonneg(x: int, d: int)
    requires x >= 0 && d > 0
    ensures 0 <= x / d <= x
  {
    DivMod(x, d);
    if x / d < 0 {
      MulMono(x / d, -1, d);
    }
    if x / d > x {
      MulMono(x + 1, x / d, d);
      MulMono(1, d, x + 1);
    }
  }

  /** The position of the highest set bit. */
  function FloorLog2(x: nat): (f: nat)
    requires x > 0
    ensures Pow2(f) <= x < Pow2(f + 1)
  {
    if x == 1 then 0 else
      var f := 1 + FloorLog2(x / 2);
      assert Pow2(f) == 2 * Pow2(f - 1) && Pow2(f + 1) == 2 * Pow2(f);
      f
  }

  lemma FloorLog2Unique(x: nat, f: nat)
    requires Pow2(f) <= x < Pow2(f + 1)
    ensures FloorLog2(x) == f
  {
    var g := FloorLog2(x);
    if g < f {
      Pow2Mono(g + 1, f);
    } else if f < g {
      Pow2Mono(f + 1, g);
    }
  }

  lemma FloorLog2Below(x: nat, W: nat)
    requires 0 < x < Pow2(W)
    ensures FloorLog2(x) < W
  {
    if FloorLog2(x) >= W {
      Pow2Mono(W, FloorLog2(x));
    }
  }
}

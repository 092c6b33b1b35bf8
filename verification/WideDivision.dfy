/** The portable division of two words by one word in libdivide (Knuth's algorithm D
    with two half-word digits), and the shift of a pair of words. */
module WideDivision {
  import opened Words
  import opened Bits
  import opened WideArithmetic

  // ---------- one quotient digit ----------

  /** The correction test compares the exact remainder of the estimate with zero. */
  lemma TestIsExact(b: int, v1: int, v0: int, u: int, u1: int, q: int, r: int)
    requires q * v1 + r == u
    ensures q * v0 > b * r + u1 <==> q * (v1 * b + v0) > u * b + u1
  {
    calc {
      q * (v1 * b + v0);
      (q * v1) * b + q * v0;
      (u - r) * b + q * v0;
    }
  }

  /** The first estimate u / v1 is at least the digit and at most b + 1. */
  lemma FirstEstimate(b: int, v1: int, v0: int, v: int, u: int, u1: int, q: int)
    requires b > 1 && b <= 2 * v1 && v1 < b && 0 <= v0 < b && 0 <= u1 < b && v == v1 * b + v0 && 0 <= u < v
    requires q == u / v1
    ensures 0 <= q <= b + 1 && 0 <= u - q * v1 < v1
    ensures u * b + u1 < (q + 1) * v
  {
    DivMod(u, v1);
    assert q * v1 + v1 == (q + 1) * v1;
    assert 0 <= q <= b + 1 by { FirstEstimateRange(b, v1, v0, u, q); }
    Overestimates(b, v1, v0, u, u1, q);
  }

  lemma FirstEstimateRange(b: int, v1: int, v0: int, u: int, q: int)
    requires b <= 2 * v1 && v1 < b && v0 < b && q * v1 <= u < (q + 1) * v1 && 0 <= u < v1 * b + v0
    ensures 0 <= q <= b + 1
  {
    if q < 0 {
      MulMono(q + 1, 0, v1);
    }
    if q >= b + 2 {
      MulMono(b + 2, q, v1);
    }
  }

  lemma Overestimates(b: int, v1: int, v0: int, u: int, u1: int, q: int)
    requires b > 0 && 0 <= v0 && u1 < b && 0 <= q && u < (q + 1) * v1
    ensures u * b + u1 < (q + 1) * (v1 * b + v0)
  {
    MulMono(u + 1, (q + 1) * v1, b);
    MulMono(0, v0, q + 1);
    calc {
      (q + 1) * (v1 * b + v0);
      ((q + 1) * v1) * b + (q + 1) * v0;
    }
  }

  /** When the remainder outgrows the base the estimate cannot still be too large. */
  lemma LargeRemainderStops(b: int, v1: int, v0: int, u: int, u1: int, q: int, r: int)
    requires b > 1 && 0 <= v0 < b && 0 <= u1 && 0 <= q <= b && r >= b
    requires q * v1 + r == u
    ensures q * (v1 * b + v0) <= u * b + u1
  {
    TestIsExact(b, v1, v0, u, u1, q, r);
    MulMono(q, b, v0);
    MulMono(v0, r, b);
  }

  /** Products and sums formed by a correction test fit in a double digit. */
  lemma TestFits(b: int, v0: int, q: int, r: int, u1: int)
    requires 0 <= q < b && 0 <= v0 < b && 0 <= r < b && 0 <= u1 < b
    ensures 0 <= q * v0 < b * b && 0 <= b * r + u1 < b * b
  {
    ProductBelow(q, v0, b);
    TwoDigits(b, r, u1);
  }

  /** q at least the digit, with its matching remainder: the state of the correction loop. */
  ghost predicate Estimate(b: int, v1: int, v: int, u: int, u1: int, q: int, r: int) {
    && 0 <= q && 0 <= r && q * v1 + r == u
    && u * b + u1 < (q + 1) * v
  }

  predicate TooLarge(h: nat, vn0: nat, un: nat, q: nat, rhat: nat) {
    var W := h + h;
    q >= Pow2(h) || Wrap(W, q * vn0) > Wrap(W, Pow2(h) * rhat + un)
  }

  lemma TestDecides(b: int, v1: int, v0: int, v: int, u: int, u1: int, q: int, r: int)
    requires b > 0 && v == v1 * b + v0 && 0 <= u < v && u1 < b && q * v1 + r == u
    ensures q < b ==> (q * v0 > b * r + u1 <==> q * v > u * b + u1)
    ensures q >= b ==> q * v > u * b + u1
  {
    TestIsExact(b, v1, v0, u, u1, q, r);
    if q >= b {
      MulMono(u + 1, v, b);
      MulMono(b, q, v);
    }
  }

  /** The wrapping comparison decides exactly whether q exceeds the digit. */
  lemma TooLargeExact(h: nat, v1: nat, v0: nat, v: nat, u: nat, u1: nat, q: nat, r: nat)
    requires v == v1 * Pow2(h) + v0 && v0 < Pow2(h) && u1 < Pow2(h) && r < Pow2(h) && u < v
    requires q * v1 + r == u
    ensures TooLarge(h, v0, u1, q, r) <==> q * v > u * Pow2(h) + u1
  {
    hide Pow2, Wrap;
    TestDecides(Pow2(h), v1, v0, v, u, u1, q, r);
    if q < Pow2(h) {
      assert Wrap(h + h, q * v0) == q * v0 && Wrap(h + h, Pow2(h) * r + u1) == Pow2(h) * r + u1 by {
        Pow2Add(h, h);
        TestFits(Pow2(h), v0, q, r, u1);
        WrapOfSmall(h + h, q * v0);
        WrapOfSmall(h + h, Pow2(h) * r + u1);
      }
    }
  }

  lemma EstimateLowered(h: nat, v1: nat, v0: nat, v: nat, u: nat, u1: nat, q: nat, r: nat)
    requires NormalizedDigits(h, v, v1, v0) && u1 < Pow2(h) && r < Pow2(h) && u < v
    requires Estimate(Pow2(h), v1, v, u, u1, q, r) && TooLarge(h, v0, u1, q, r)
    ensures q >= 1 && Estimate(Pow2(h), v1, v, u, u1, q - 1, r + v1)
  {
    hide Pow2, TooLarge;
    TooLargeExact(h, v1, v0, v, u, u1, q, r);
    MulMono(0, u, Pow2(h));
  }

  /** The loop ends with the exact digit, whether the test failed or the remainder outgrew the base. */
  lemma EstimateExact(h: nat, v1: nat, v0: nat, v: nat, u: nat, u1: nat, q: nat, r: nat)
    requires NormalizedDigits(h, v, v1, v0) && u1 < Pow2(h) && u < v
    requires Estimate(Pow2(h), v1, v, u, u1, q, r)
    requires (r >= Pow2(h) && q <= Pow2(h)) || (r < Pow2(h) && !TooLarge(h, v0, u1, q, r))
    ensures IsQuotientDigit(h, v, u, u1, q)
  {
    TopDigitIsLarge(h, v, v1, v0);
    hide Pow2, TooLarge;
    if r >= Pow2(h) {
      LargeRemainderStops(Pow2(h), v1, v0, u, u1, q, r);
    } else {
      TooLargeExact(h, v1, v0, v, u, u1, q, r);
    }
    DivBetween(u * Pow2(h) + u1, v, q);
  }

  /** v in two half-word digits, with the top bit set. */
  ghost predicate NormalizedDigits(h: nat, v: nat, vn1: nat, vn0: nat) {
    h >= 1 && Pow2(h - 1) <= vn1 < Pow2(h) && vn0 < Pow2(h) && v == vn1 * Pow2(h) + vn0
  }

  ghost predicate IsQuotientDigit(h: nat, v: nat, u: nat, un: nat, q: nat) {
    v > 0 && q == (u * Pow2(h) + un) / v
  }

  /** One digit of the quotient with its correction loop, which runs at most twice. */
  method QuotientDigit(h: nat, ghost v: nat, vn1: nat, vn0: nat, u: nat, un: nat) returns (q: nat, ghost rounds: nat)
    requires NormalizedDigits(h, v, vn1, vn0) && un < Pow2(h) && u < v
    ensures IsQuotientDigit(h, v, u, un, q)
    ensures rounds <= 2
  {
    hide TooLarge, Estimate, NormalizedDigits, IsQuotientDigit;
    TopDigitIsLarge(h, v, vn1, vn0);
    q := u / vn1;
    InitialEstimate(h, v, vn1, vn0, u, un, q);
    hide Pow2;
    var rhat: nat := u - q * vn1;
    rounds := 0;
    while TooLarge(h, vn0, un, q, rhat)
      invariant q <= Pow2(h) + 1 && Estimate(Pow2(h), vn1, v, u, un, q, rhat)
      invariant rhat < Pow2(h) && (rounds == 0 || rhat >= vn1) && rounds <= 1
      decreases q
    {
      EstimateLowered(h, vn1, vn0, v, u, un, q, rhat);
      q := q - 1;
      rhat := rhat + vn1;
      rounds := rounds + 1;
      if rhat >= Pow2(h) {
        break;
      }
    }
    EstimateExact(h, vn1, vn0, v, u, un, q, rhat);
  }

  lemma TopDigitIsLarge(h: nat, v: nat, vn1: nat, vn0: nat)
    requires NormalizedDigits(h, v, vn1, vn0)
    ensures h >= 1 && 1 < Pow2(h) <= 2 * vn1 && vn1 < Pow2(h) && vn0 < Pow2(h)
  {
    assert Pow2(h) == 2 * Pow2(h - 1);
  }

  lemma InitialEstimate(h: nat, v: nat, vn1: nat, vn0: nat, u: nat, un: nat, q: int)
    requires NormalizedDigits(h, v, vn1, vn0) && vn1 > 0 && un < Pow2(h) && u < v && q == u / vn1
    ensures 0 <= q <= Pow2(h) + 1 && 0 <= u - q * vn1 < vn1
    ensures Estimate(Pow2(h), vn1, v, u, un, q, u - q * vn1)
  {
    TopDigitIsLarge(h, v, vn1, vn0);
    hide Pow2;
    FirstEstimate(Pow2(h), vn1, vn0, v, u, un, q);
  }

  // ---------- two words by one word ----------

  /** Shifting by the leading zeros puts the divisor's top bit in the top position. */
  lemma NormalizedDivisor(W: nat, v: nat)
    requires W > 0 && 0 < v < Pow2(W)
    ensures var s := LeadingZeros(W, v); s < W && Pow2(W - 1) <= v * Pow2(s) < Pow2(W)
  {
    FloorLog2Below(v, W);
    var f := FloorLog2(v);
    var s := W - 1 - f;
    Pow2Add(f, s);
    Pow2Add(f + 1, s);
    hide Pow2;
    MulMono(Pow2(f), v, Pow2(s));
    MulStrict(v, Pow2(f + 1), Pow2(s));
  }

  /** Left shift of a double word by s < W through its two words; nothing is lost when the top fits. */
  lemma ShiftedPair(W: nat, s: nat, u1: nat, u0: nat)
    requires 0 < s < W && u0 < Pow2(W) && u1 * Pow2(s) + Pow2(s) <= Pow2(W)
    ensures Or(Shl(W, u1, s), Shr(u0, W - s)) == u1 * Pow2(s) + Shr(u0, W - s)
    ensures Shr(u0, W - s) < Pow2(s)
    ensures Shr(u0, W - s) * Pow2(W) + Shl(W, u0, s) == u0 * Pow2(s)
  {
    hide Pow2, Or, Wrap;
    DivNonneg(u0, Pow2(W - s));
    var p, c := Pow2(s), Pow2(W - s);
    Pow2Add(s, W - s);
    DivMod(u0, c);
    DivBelow(u0, c, p);
    MulMono(0, u1, p);
    WrapOfSmall(W, u1 * p);
    OrDisjoint(u0 / c, u1, s);
    OrComm(u0 / c, u1 * p);
    ShiftedLow(u0, p, c, W);
  }

  lemma ShiftedLow(u0: nat, p: nat, c: nat, W: nat)
    requires p > 0 && c > 0 && Pow2(W) == p * c
    ensures (u0 / c) * Pow2(W) + Wrap(W, u0 * p) == u0 * p
  {
    hide Pow2;
    DivMod(u0, c);
    ScaledSplit(u0, p, c, u0 / c, u0 % c);
    DivUnique(u0 * p, Pow2(W), u0 / c, (u0 % c) * p);
  }

  lemma ScaledSplit(u: int, p: int, c: int, q: int, r: int)
    requires p > 0 && u == q * c + r && 0 <= r < c
    ensures u * p == q * (p * c) + r * p && 0 <= r * p < p * c
  {
    MulStrict(r, c, p);
    MulMono(0, r, p);
    assert (q * c) * p == q * (p * c);
  }

  lemma TwoStepDivision(b: int, v: int, u: int, un1: int, un0: int, q1: int, r1: int, q0: int, r0: int)
    requires u * b + un1 == q1 * v + r1 && r1 * b + un0 == q0 * v + r0
    ensures (u * b + un1) * b + un0 == (q1 * b + q0) * v + r0
  {
    calc {
      (u * b + un1) * b + un0;
      (q1 * v) * b + r1 * b + un0;
      (q1 * v) * b + q0 * v + r0;
      (q1 * b + q0) * v + r0;
    }
  }

  /** Dividing out the normalizing factor leaves quotient and remainder of the original operands. */
  lemma Denormalize(p: int, v: int, U: int, Q: int, r: int)
    requires p > 0 && U * p == Q * (v * p) + r && 0 <= r < v * p
    ensures U == Q * v + r / p && 0 <= r / p < v
  {
    assert Q * (v * p) == (Q * v) * p;
    var t := U - Q * v;
    assert r == t * p + 0;
    DivUnique(r, p, t, 0);
    DivBelow(r, p, v);
  }

  lemma QuotientFits(B: int, v: int, u1: int, u0: int, Q: int, r: int)
    requires 0 <= u0 < B && 0 <= u1 < v && 0 <= r && u1 * B + u0 == Q * v + r
    ensures Q < B
  {
    if Q >= B {
      MulMono(B, Q, v);
      MulMono(u1 + 1, v, B);
    }
  }

  /** One round of long division: the digit and its wrapped remainder are exact. */
  method DivideStep(h: nat, vn1: nat, vn0: nat, v: nat, u: nat, un: nat) returns (q: nat, r: nat)
    requires NormalizedDigits(h, v, vn1, vn0) && un < Pow2(h) && v < Pow2(h + h) && u < v
    ensures u * Pow2(h) + un == q * v + r && r < v && q < Pow2(h)
  {
    hide Pow2, Wrap, NormalizedDigits;
    ghost var rounds;
    q, rounds := QuotientDigit(h, v, vn1, vn0, u, un);
    r := Wrap(h + h, u * Pow2(h) + un - q * v);
    DivMod(u * Pow2(h) + un, v);
    WrapOfSmall(h + h, u * Pow2(h) + un - q * v);
    QuotientFits(Pow2(h), v, u, un, q, r);
  }

  /** Portable division of {u1, u0} by v, with the saturating answer on overflow.
      The library's word is h == 32, that is 64 bits. */
  method DivideDoubleBySingle(h: nat, u1: nat, u0: nat, v: nat) returns (q: nat, r: nat)
    requires h >= 1 && u1 < Pow2(h + h) && u0 < Pow2(h + h) && v < Pow2(h + h)
    ensures u1 >= v ==> q == Pow2(h + h) - 1 && r == Pow2(h + h) - 1
    ensures u1 < v ==> u1 * Pow2(h + h) + u0 == q * v + r && r < v && q < Pow2(h + h)
  {
    hide Pow2, Or, And, LeadingZeros, Wrap, Shr, Shl;
    var W := h + h;
    if u1 >= v {
      return Pow2(W) - 1, Pow2(W) - 1;
    }
    var s := LeadingZeros(W, v);
    var vs, un64, un10 := v, u1, u0;
    if s > 0 {
      vs := Shl(W, v, s);
      un64 := Or(Shl(W, u1, s), Shr(u0, W - s));
      un10 := Shl(W, u0, s);
    }
    Normalized(W, s, u1, u0, v, vs, un64, un10);
    var vn1, vn0 := Shr(vs, h), And(vs, Pow2(h) - 1);
    var un1, un0 := Shr(un10, h), And(un10, Pow2(h) - 1);
    SplitWord(h, vs);
    SplitWord(h, un10);
    TopDigit(h, vs);
    var q1, un21 := DivideStep(h, vn1, vn0, vs, un64, un1);
    var q0, rs := DivideStep(h, vn1, vn0, vs, un21, un0);
    r := Shr(rs, s);
    q := Wrap(W, q1 * Pow2(h) + q0);
    Assemble(h, s, u1, u0, v, vs, un64, un10, un1, un0, q1, un21, q0, rs);
  }

  lemma QuotientAtLeast(x: int, d: int, k: int)
    requires d > 0 && k * d <= x
    ensures k <= x / d
  {
    DivMod(x, d);
    if x / d < k {
      MulMono(x / d + 1, k, d);
    }
  }

  lemma TopDigit(h: nat, v: nat)
    requires h >= 1 && Pow2(h + h - 1) <= v
    ensures Pow2(h - 1) <= Shr(v, h)
  {
    Pow2Add(h - 1, h);
    hide Pow2;
    QuotientAtLeast(v, Pow2(h), Pow2(h - 1));
  }

  lemma Distribute(u1: int, B: int, u0: int, p: int, hi: int, lo: int)
    requires hi * B + lo == u0 * p
    ensures (u1 * p + hi) * B + lo == (u1 * B + u0) * p
  {
    assert (u1 * p) * B == (u1 * B) * p;
  }

  /** The normalized operands are the original ones times Pow2(s). */
  lemma Normalized(W: nat, s: nat, u1: nat, u0: nat, v: nat, vs: nat, un64: nat, un10: nat)
    requires W > 0 && u0 < Pow2(W) && u1 < v < Pow2(W) && s == LeadingZeros(W, v)
    requires s == 0 ==> vs == v && un64 == u1 && un10 == u0
    requires s > 0 ==> vs == Shl(W, v, s) && un10 == Shl(W, u0, s)
                       && s < W && un64 == Or(Shl(W, u1, s), Shr(u0, W - s))
    ensures vs == v * Pow2(s) && Pow2(W - 1) <= vs < Pow2(W)
    ensures un64 * Pow2(W) + un10 == (u1 * Pow2(W) + u0) * Pow2(s)
    ensures un64 < vs && un10 < Pow2(W)
  {
    assert Pow2(0) == 1;
    NormalizedDivisor(W, v);
    if s > 0 {
      NormalizedByShift(W, s, u1, u0, v, vs, un64, un10);
    }
  }

  lemma NormalizedByShift(W: nat, s: nat, u1: nat, u0: nat, v: nat, vs: nat, un64: nat, un10: nat)
    requires 0 < s < W && u0 < Pow2(W) && u1 < v && v * Pow2(s) < Pow2(W)
    requires vs == Shl(W, v, s) && un10 == Shl(W, u0, s) && un64 == Or(Shl(W, u1, s), Shr(u0, W - s))
    ensures vs == v * Pow2(s)
    ensures un64 * Pow2(W) + un10 == (u1 * Pow2(W) + u0) * Pow2(s)
    ensures un64 < vs
  {
    hide Pow2, Or, Wrap, Shr;
    var p := Pow2(s);
    MulMono(u1 + 1, v, p);
    assert u1 * p + p <= v * p;
    WrapOfSmall(W, v * p);
    ShiftedPair(W, s, u1, u0);
    Distribute(u1, Pow2(W), u0, p, Shr(u0, W - s), un10);
  }

  lemma Assemble(h: nat, s: nat, u1: nat, u0: nat, v: nat, vs: nat, un64: nat, un10: nat,
                 un1: nat, un0: nat, q1: nat, un21: nat, q0: nat, rs: nat)
    requires u1 < v && u0 < Pow2(h + h)
    requires vs == v * Pow2(s) && rs < vs
    requires un64 * Pow2(h + h) + un10 == (u1 * Pow2(h + h) + u0) * Pow2(s)
    requires un10 == un1 * Pow2(h) + un0
    requires un64 * Pow2(h) + un1 == q1 * vs + un21 && un21 * Pow2(h) + un0 == q0 * vs + rs
    ensures var q := Wrap(h + h, q1 * Pow2(h) + q0);
            u1 * Pow2(h + h) + u0 == q * v + Shr(rs, s) && Shr(rs, s) < v
  {
    hide Pow2, Wrap;
    Pow2Add(h, h);
    var U, Q := u1 * Pow2(h + h) + u0, q1 * Pow2(h) + q0;
    AssembleNormalized(Pow2(h), Pow2(h + h), vs, un64, un10, un1, un0, q1, un21, q0, rs, Q);
    Denormalize(Pow2(s), v, U, Q, rs);
    QuotientFits(Pow2(h + h), v, u1, u0, Q, rs / Pow2(s));
    WrapOfSmall(h + h, Q);
  }

  /** Two digits make the quotient of the normalized operands. */
  lemma AssembleNormalized(b: int, B: int, vs: int, un64: int, un10: int, un1: int, un0: int,
                           q1: int, un21: int, q0: int, rs: int, Q: int)
    requires B == b * b && un10 == un1 * b + un0 && Q == q1 * b + q0
    requires un64 * b + un1 == q1 * vs + un21 && un21 * b + un0 == q0 * vs + rs
    ensures un64 * B + un10 == Q * vs + rs
  {
    TwoStepDivision(b, vs, un64, un1, un0, q1, un21, q0, rs);
    assert (un64 * b + un1) * b == un64 * (b * b) + un1 * b;
  }

  // ---------- shifting a double word ----------

  lemma ModScale(x: int, p: int, c: int)
    requires p > 0 && c > 0
    ensures p * c > 0 && (x * p) % (p * c) == (x % c) * p
  {
    MulStrict(0, p, c);
    DivMod(x, c);
    MulMono(x % c + 1, c, p);
    MulMono(0, x % c, p);
    assert x * p == (x / c) * (p * c) + (x % c) * p;
    DivUnique(x * p, p * c, x / c, (x % c) * p);
  }

  lemma ShiftLeftValue(B: int, p: int, c: int, a: int, m: int, u0: int, hi: int, lo: int)
    requires B == p * c && hi * B + lo == u0 * p
    ensures ((a * c + m) * B + u0) * p == a * (B * B) + ((m * p + hi) * B + lo)
  {
    assert (a * c + m) * p == a * B + m * p;
    calc {
      ((a * c + m) * B + u0) * p;
      ((a * c + m) * p) * B + u0 * p;
      (a * B + m * p) * B + (hi * B + lo);
    }
  }

  /** Left shift of the pair is multiplication by Pow2(s) modulo the square of the word size. */
  lemma ShiftLeftPair(B: int, p: int, c: int, u1: int, u0: int, hi: int, lo: int)
    requires p > 0 && c > 0 && B == p * c && 0 <= hi < p && 0 <= lo < B
    requires hi * B + lo == u0 * p
    ensures B * B > 0 && 0 <= (u1 % c) * p + hi < B
    ensures ((u1 % c) * p + hi) * B + lo == ((u1 * B + u0) * p) % (B * B)
  {
    MulStrict(0, B, B);
    var a, m := u1 / c, u1 % c;
    DivMod(u1, c);
    MulComm(p, c);
    MixedDigit(B, c, p, m, hi);
    TwoDigits(B, m * p + hi, lo);
    ShiftLeftValue(B, p, c, a, m, u0, hi, lo);
    DivUnique((u1 * B + u0) * p, B * B, a, (m * p + hi) * B + lo);
  }

  lemma ShiftRightValue(p: int, c: int, a: int, m: int, e: int, f: int)
    ensures (a * p + m) * (p * c) + (e * p + f) == (a * (p * c) + (m * c + e)) * p + f
  {
    calc {
      (a * p + m) * (p * c);
      (a * p) * (p * c) + m * (p * c);
      (a * (p * c)) * p + (m * c) * p;
    }
  }

  lemma DigitBelow(e: int, f: int, p: int, c: int)
    requires p > 0 && 0 <= f < p && 0 <= e * p + f < p * c
    ensures 0 <= e < c
  {
    if e < 0 {
      MulMono(e, -1, p);
    }
    if e >= c {
      MulMono(c, e, p);
    }
  }

  /** Right shift of the pair is floor division. */
  lemma ShiftRightPair(B: int, p: int, c: int, u1: int, u0: int, a: int, m: int, e: int, f: int)
    requires p > 0 && c > 0 && B == p * c && 0 <= u0 < B
    requires u1 == a * p + m && 0 <= m < p && u0 == e * p + f && 0 <= f < p
    ensures 0 <= e < c && 0 <= m * c + e < B
    ensures a * B + (m * c + e) == (u1 * B + u0) / p
  {
    DigitBelow(e, f, p, c);
    MixedDigit(B, p, c, m, e);
    ShiftRightValue(p, c, a, m, e, f);
    DivUnique(u1 * B + u0, p, a * B + (m * c + e), f);
  }

  lemma MixedDigit(B: int, p: int, c: int, m: int, e: int)
    requires B == p * c && 0 <= m < p && 0 <= e < c
    ensures 0 <= m * c + e < B
  {
    MulMono(m + 1, p, c);
    assert (m + 1) * c == m * c + c;
    MulNonneg(m, c);
  }

  /** In-place shift of {u1, u0}, left for a positive amount and right for a negative one. */
  method ShiftDouble(W: nat, u1: nat, u0: nat, s: int) returns (r1: nat, r0: nat)
    requires u1 < Pow2(W) && u0 < Pow2(W) && 0 - W < s < W
    ensures r1 < Pow2(W) && r0 < Pow2(W) && Pow2(W) * Pow2(W) > 0
    ensures s >= 0 ==> r1 * Pow2(W) + r0 == ((u1 * Pow2(W) + u0) * Pow2(s)) % (Pow2(W) * Pow2(W))
    ensures s <= 0 ==> r1 * Pow2(W) + r0 == (u1 * Pow2(W) + u0) / Pow2(-s)
  {
    assert Pow2(0) == 1;
    hide Pow2, Or, Wrap;
    MulStrict(0, Pow2(W), Pow2(W));
    r1, r0 := u1, u0;
    if s > 0 {
      r1 := Shl(W, r1, s);
      r1 := Or(r1, Shr(r0, W - s));
      r0 := Shl(W, r0, s);
      ShiftedLeft(W, u1, u0, s);
    } else if s < 0 {
      var t := -s;
      r0 := Shr(r0, t);
      r0 := Or(r0, Shl(W, r1, W - t));
      r1 := Shr(r1, t);
      ShiftedRight(W, u1, u0, t);
    } else {
      TwoDigits(Pow2(W), u1, u0);
      DivUnique(u1 * Pow2(W) + u0, Pow2(W) * Pow2(W), 0, u1 * Pow2(W) + u0);
    }
  }

  lemma ShiftedLeft(W: nat, u1: nat, u0: nat, s: nat)
    requires u1 < Pow2(W) && u0 < Pow2(W) && 0 < s < W
    ensures Pow2(W) * Pow2(W) > 0
    ensures var r1, r0 := Or(Shl(W, u1, s), Shr(u0, W - s)), Shl(W, u0, s);
            r1 < Pow2(W) && r1 * Pow2(W) + r0 == ((u1 * Pow2(W) + u0) * Pow2(s)) % (Pow2(W) * Pow2(W))
  {
    hide Pow2, Or, Shr, Shl;
    var p, c := Pow2(s), Pow2(W - s);
    Pow2Add(s, W - s);
    ShlKeepsLow(W, u1, s);
    LowPart(W, s, u0);
    OrDisjoint(Shr(u0, W - s), u1 % c, s);
    OrComm(Shr(u0, W - s), (u1 % c) * p);
    ShiftLeftPair(Pow2(W), p, c, u1, u0, Shr(u0, W - s), Shl(W, u0, s));
  }

  lemma LowPart(W: nat, s: nat, u0: nat)
    requires 0 < s < W && u0 < Pow2(W)
    ensures Shr(u0, W - s) < Pow2(s)
    ensures Shr(u0, W - s) * Pow2(W) + Shl(W, u0, s) == u0 * Pow2(s)
  {
    hide Pow2, Wrap;
    Pow2Add(s, W - s);
    DivBelow(u0, Pow2(W - s), Pow2(s));
    ShiftedLow(u0, Pow2(s), Pow2(W - s), W);
  }

  /** A left shift keeps the low W - s bits. */
  lemma ShlKeepsLow(W: nat, x: nat, s: nat)
    requires s <= W
    ensures Shl(W, x, s) == (x % Pow2(W - s)) * Pow2(s)
  {
    hide Pow2;
    Pow2Add(s, W - s);
    ModScale(x, Pow2(s), Pow2(W - s));
  }

  lemma ShrSplit(x: nat, t: nat)
    ensures x == Shr(x, t) * Pow2(t) + x % Pow2(t) && 0 <= x % Pow2(t) < Pow2(t)
  {
    DivMod(x, Pow2(t));
  }

  lemma ShiftedRight(W: nat, u1: nat, u0: nat, t: nat)
    requires u1 < Pow2(W) && u0 < Pow2(W) && 0 < t < W
    ensures var r1, r0 := Shr(u1, t), Or(Shr(u0, t), Shl(W, u1, W - t));
            r1 < Pow2(W) && r0 < Pow2(W) && r1 * Pow2(W) + r0 == (u1 * Pow2(W) + u0) / Pow2(t)
  {
    hide Pow2, Or, Wrap, Shl, Shr;
    Pow2Add(t, W - t);
    ShlKeepsLow(W, u1, W - t);
    ShrSplit(u1, t);
    ShrSplit(u0, t);
    var m, f := u1 % Pow2(t), u0 % Pow2(t);
    ShiftRightPair(Pow2(W), Pow2(t), Pow2(W - t), u1, u0, Shr(u1, t), m, Shr(u0, t), f);
    OrDisjoint(Shr(u0, t), m, W - t);
  }
}

/** The portable division of two words by two words, used when a magic number has W + 1 bits. */
module DoubleDivision {
  import opened Words
  import opened WideArithmetic
  import opened WideDivision

  // ---------- the quotient estimate ----------

  /** Rounding the divisor V down to T, by less than c where 2*T >= B*c, cannot raise
      the quotient of a double word by more than one. */
  lemma EstimateAtMostOneTooLarge(B: int, c: int, T: int, V: int, U: int, q: int)
    requires B > 0 && c > 0 && B * c <= 2 * T && V < T + c && 0 <= U < B * B
    requires q >= 1 && q * T <= U
    ensures (q - 1) * V <= U
  {
    var k, g := q - 1, c - 1;
    assert q * T == k * T + T;
    MulStrict(0, c, B);
    SmallSlack(B, c, T, U, k);
    SlackCovers(k, T, g, V, U);
  }

  lemma SlackCovers(k: int, T: int, g: int, V: int, U: int)
    requires 0 <= k && k * T + T <= U && k * g <= T && V <= T + g
    ensures k * V <= U
  {
    MulMono(V, T + g, k);
    assert k * (T + g) == k * T + k * g;
  }

  lemma SmallSlack(B: int, c: int, T: int, U: int, k: int)
    requires B > 0 && c > 0 && B * c <= 2 * T && U < B * B && 0 <= k && 0 < T && k * T <= U
    ensures k * (c - 1) <= T
  {
    var g := c - 1;
    if k * g > T {
      MulStrict(T, k * g, T);
      assert (k * g) * T == (k * T) * g;
      MulMono(k * T, B * B, g);
      assert T * T < (B * B) * g;
      SquareBound(B, c, T);
      SquareTooLarge(B * B, c);
    }
  }

  lemma SquareBound(B: int, c: int, T: int)
    requires 0 < B && 0 < c && B * c <= 2 * T
    ensures (B * B) * (c * c) <= 4 * (T * T)
  {
    MulMono(B * c, 2 * T, B * c);
    MulMono(B * c, 2 * T, 2 * T);
    assert (B * c) * (B * c) == (B * B) * (c * c);
    assert (2 * T) * (2 * T) == 4 * (T * T);
  }

  lemma SquareTooLarge(S: int, c: int)
    requires S > 0
    ensures S * (c * c) >= 4 * (S * (c - 1))
  {
    assert (c - 2) * (c - 2) >= 0;
    assert c * c >= 4 * (c - 1);
    MulMono(4 * (c - 1), c * c, S);
    assert S * (4 * (c - 1)) == 4 * (S * (c - 1));
  }

  /** Halving, dividing by the normalized top word and undoing both is division by v1*c. */
  lemma EstimateIsTruncatedQuotient(U: int, v1: int, p: int, e: int, q1: int)
    requires v1 > 0 && p > 0 && e > 0 && q1 == (U / 2) / v1
    ensures p * e > 0 && v1 * (2 * e) > 0
    ensures (q1 * p) / (p * e) == U / (v1 * (2 * e))
  {
    MulStrict(0, p, e);
    DivDiv(q1 * p, p, e);
    DivUnique(q1 * p, p, q1, 0);
    DivDiv(U, 2, v1);
    DivDiv(U, 2 * v1, e);
    assert (2 * v1) * e == v1 * (2 * e);
  }

  /** The truncated divisor v1*c lies within c below V and above B*c/2. */
  lemma TruncatedDivisor(B: int, p: int, c: int, V: int, v1: int, low: int)
    requires p > 0 && c > 0 && B == p * c && 0 <= low < B && V * p == v1 * B + low && B <= 2 * v1
    ensures v1 * c <= V < v1 * c + c && B * c <= 2 * (v1 * c)
  {
    var T := v1 * c;
    assert v1 * B == T * p;
    MulCancelLe(T, V, p);
    assert (T + c) * p == T * p + B;
    MulCancelLt(V, T + c, p);
    MulMono(B, 2 * v1, c);
  }

  lemma MulCancelLe(x: int, y: int, z: int)
    requires x * z <= y * z && 0 < z
    ensures x <= y
  {
    if x > y {
      MulStrict(y, x, z);
    }
  }

  // ---------- pair arithmetic ----------

  function Pair(W: nat, hi: nat, lo: nat): (n: nat) {
    hi * Pow2(W) + lo
  }

  lemma BorrowValue(B: int, ahi: int, alo: int, bhi: int, blo: int, borrow: int)
    requires 0 <= alo < B && 0 <= blo < B && borrow == (if alo < blo then 1 else 0)
    requires ahi * B + alo >= bhi * B + blo
    ensures ahi - (bhi + borrow) >= 0
    ensures (ahi - (bhi + borrow)) * B + (alo - blo + (if alo < blo then B else 0)) == (ahi * B + alo) - (bhi * B + blo)
  {
    BorrowFits(B, ahi, alo, bhi, blo, borrow, ahi * B, bhi * B);
    assert (ahi - (bhi + borrow)) * B == ahi * B - bhi * B - borrow * B;
  }

  lemma BorrowFits(B: int, ahi: int, alo: int, bhi: int, blo: int, borrow: int, aB: int, bB: int)
    requires 0 <= alo < B && 0 <= blo < B && borrow == (if alo < blo then 1 else 0)
    requires aB == ahi * B && bB == bhi * B && aB + alo >= bB + blo
    ensures ahi - (bhi + borrow) >= 0
  {
    assert (ahi + 1) * B == aB + B;
    if ahi + 1 <= bhi {
      MulMono(ahi + 1, bhi, B);
    }
  }

  /** Subtraction with borrow over {hi, lo} pairs. */
  lemma SubtractPair(W: nat, ahi: nat, alo: nat, bhi: nat, blo: nat)
    requires ahi < Pow2(W) && alo < Pow2(W) && bhi < Pow2(W) && blo < Pow2(W)
    requires Pair(W, ahi, alo) >= Pair(W, bhi, blo)
    ensures Pair(W, Wrap(W, ahi - (bhi + (if alo < blo then 1 else 0))), Wrap(W, alo - blo))
         == Pair(W, ahi, alo) - Pair(W, bhi, blo)
  {
    hide Pow2, Wrap;
    var borrow := if alo < blo then 1 else 0;
    BorrowValue(Pow2(W), ahi, alo, bhi, blo, borrow);
    WrapOfSmall(W, ahi - (bhi + borrow));
    if alo < blo {
      WrapShifted(W, alo - blo, 1);
      WrapOfSmall(W, alo - blo + Pow2(W));
    } else {
      WrapOfSmall(W, alo - blo);
    }
  }

  lemma ComparePair(W: nat, ahi: nat, alo: nat, bhi: nat, blo: nat)
    requires alo < Pow2(W) && blo < Pow2(W)
    ensures (ahi > bhi || (ahi == bhi && alo >= blo)) <==> Pair(W, ahi, alo) >= Pair(W, bhi, blo)
  {
    hide Pow2;
    if ahi > bhi {
      HigherWordWins(Pow2(W), ahi, alo, bhi, blo);
    } else if ahi < bhi {
      HigherWordWins(Pow2(W), bhi, blo, ahi, alo);
    }
  }

  lemma HigherWordWins(B: int, ahi: int, alo: int, bhi: int, blo: int)
    requires ahi > bhi && 0 <= alo && blo < B && 0 <= B
    ensures ahi * B + alo > bhi * B + blo
  {
    MulMono(bhi + 1, ahi, B);
  }

  /** A pair below the word size has an empty high word. */
  lemma SmallPair(W: nat, hi: nat, lo: nat)
    requires Pair(W, hi, lo) < Pow2(W)
    ensures hi == 0
  {
    hide Pow2;
    if hi > 0 {
      MulMono(1, hi, Pow2(W));
    }
  }

  /** Word by pair product from a low product, a cross product and a high half. */
  lemma MultiplyPair(h: nat, q: nat, vhi: nat, vlo: nat)
    requires q < Pow2(h + h) && vlo < Pow2(h + h)
    requires q * Pair(h + h, vhi, vlo) < Pow2(h + h) * Pow2(h + h)
    ensures var W := h + h;
            Pair(W, Wrap(W, 0 * vlo + q * vhi + MulHighUnsigned(h, q, vlo)), Wrap(W, q * vlo)) == q * Pair(W, vhi, vlo)
  {
    var W := h + h;
    MulHighUnsignedExact(h, q, vlo);
    hide Pow2, MulHighUnsigned;
    ProductPair(Pow2(W), q, vhi, vlo);
    DivMod(q * vlo, Pow2(W));
    hide Wrap;
    WrapOfSmall(W, q * vhi + (q * vlo) / Pow2(W));
    WrapIsMod(W, q * vlo);
  }

  lemma WrapIsMod(W: nat, x: int)
    ensures Wrap(W, x) == x % Pow2(W)
  {
  }

  lemma ProductPair(B: int, q: int, vhi: int, vlo: int)
    requires B > 0 && 0 <= q && 0 <= vhi && 0 <= vlo && q * (vhi * B + vlo) < B * B
    ensures q * (vhi * B + vlo) == (q * vhi + (q * vlo) / B) * B + (q * vlo) % B
    ensures 0 <= q * vhi + (q * vlo) / B < B
  {
    DivMod(q * vlo, B);
    MulMono(0, q, vhi);
    MulMono(0, q, vlo);
    DivNonneg(q * vlo, B);
    var s := q * vhi + (q * vlo) / B;
    assert q * (vhi * B + vlo) == s * B + (q * vlo) % B;
    MulCancelLt(s, B, B);
  }

  // ---------- the division ----------

  /** Facts about the quotient estimate of U / V, with V normalized by Pow2(n) and its top word v1. */
  ghost predicate GoodEstimate(U: int, V: int, q0: int)
    requires V > 0
  {
    U / V <= q0 <= U / V + 1
  }

  lemma EstimateIsGood(B: int, c: int, T: int, V: int, U: int)
    requires B > 0 && c > 0 && 0 < T <= V < T + c && B * c <= 2 * T && 0 <= U < B * B
    ensures GoodEstimate(U, V, U / T)
  {
    var q0, q := U / T, U / V;
    DivMod(U, T);
    DivMod(U, V);
    DivNonneg(U, T);
    DivNonneg(U, V);
    if q0 >= 1 {
      EstimateAtMostOneTooLarge(B, c, T, V, U, q0);
      NotAbove(U, V, q, U % V, q0 - 1);
    }
    MulMono(T, V, q);
    QuotientAtLeast(U, T, q);
  }

  lemma NotAbove(U: int, V: int, q: int, r: int, k: int)
    requires V > 0 && U == q * V + r && r < V && k * V <= U
    ensures k <= q
  {
    assert (q + 1) * V == q * V + V;
    MulCancelLt(k, q + 1, V);
  }

  lemma PairBelow(W: nat, hi: nat, lo: nat)
    requires hi < Pow2(W) && lo < Pow2(W)
    ensures Pair(W, hi, lo) < Pow2(W) * Pow2(W)
  {
    hide Pow2;
    TwoDigits(Pow2(W), hi, lo);
  }

  lemma NormalizedUpper(B: int, p: int, c: int, vhi: int, vlo: int)
    requires p > 0 && c > 0 && B == p * c && vlo < B && vhi * p < B
    ensures (vhi * B + vlo) * p < B * B
  {
    MulComm(p, c);
    MulCancelLt(vhi, c, p);
    MulMono(vhi + 1, c, p);
    assert (vhi + 1) * p == vhi * p + p;
    UpperBelow(B, p, vhi * p, vhi, vlo);
  }

  lemma UpperBelow(B: int, p: int, vp: int, vhi: int, vlo: int)
    requires p > 0 && vp == vhi * p && vp + p <= B && vlo < B && 0 < B
    ensures (vhi * B + vlo) * p < B * B
  {
    MulMono(vp + p, B, B);
    assert (vp + p) * B == vp * B + p * B;
    MulStrict(vlo, B, p);
    assert (vhi * B) * p == vp * B;
    assert (vhi * B + vlo) * p == (vhi * B) * p + vlo * p;
  }

  lemma NormalizedLower(B: int, half: int, p: int, vhi: int, vlo: int, v1: int, low: int)
    requires p > 0 && B > 0 && 0 <= vlo && half <= vhi * p && low < B
    requires (vhi * B + vlo) * p == v1 * B + low
    ensures half <= v1
  {
    MulMono(half, vhi * p, B);
    MulMono(0, vlo, p);
    assert (vhi * B + vlo) * p == (vhi * p) * B + vlo * p;
    assert (v1 + 1) * B == v1 * B + B;
    MulCancelLt(half, v1 + 1, B);
  }

  /** The normalized divisor loses no bit and its top word has the top bit set. */
  lemma NormalizedPair(W: nat, vhi: nat, vlo: nat, n: nat, v1: nat, low: nat)
    requires W > 0 && 0 < vhi < Pow2(W) && vlo < Pow2(W) && n == LeadingZeros(W, vhi) && n < W
    requires low < Pow2(W) && Pow2(W) * Pow2(W) > 0
    requires Pair(W, v1, low) == (Pair(W, vhi, vlo) * Pow2(n)) % (Pow2(W) * Pow2(W))
    ensures Pair(W, vhi, vlo) * Pow2(n) == Pair(W, v1, low)
    ensures Pow2(W - 1) <= v1
  {
    NormalizedDivisor(W, vhi);
    Pow2Add(n, W - n);
    hide Pow2, LeadingZeros;
    var X := Pair(W, vhi, vlo) * Pow2(n);
    NormalizedUpper(Pow2(W), Pow2(n), Pow2(W - n), vhi, vlo);
    DivUnique(X, Pow2(W) * Pow2(W), 0, X);
    NormalizedLower(Pow2(W), Pow2(W - 1), Pow2(n), vhi, vlo, v1, low);
  }

  lemma HalfBelow(W: nat, U: nat, hi: nat, lo: nat)
    requires W > 0 && U < Pow2(W) * Pow2(W) && Pair(W, hi, lo) == U / 2
    ensures hi < Pow2(W - 1)
  {
    var half := Pow2(W - 1);
    assert Pow2(W) == 2 * half;
    hide Pow2;
    if hi >= half {
      MulMono(half, hi, Pow2(W));
      MulAssoc(2, half, Pow2(W));
    }
  }

  lemma EstimateResult(W: nat, n: nat, vhi: nat, vlo: nat, U: nat, v1: nat, low: nat, q1: nat)
    requires W > 0 && n < W && low < Pow2(W) && U < Pow2(W) * Pow2(W) && 0 < v1
    requires Pow2(W - 1) <= v1 && Pair(W, vhi, vlo) * Pow2(n) == Pair(W, v1, low)
    requires q1 == (U / 2) / v1 && Pair(W, vhi, vlo) > 0
    ensures GoodEstimate(U, Pair(W, vhi, vlo), (q1 * Pow2(n)) / Pow2(W - 1))
  {
    var B, p, e, c := Pow2(W), Pow2(n), Pow2(W - 1 - n), Pow2(W - n);
    assert B == 2 * Pow2(W - 1) && c == 2 * e;
    Pow2Add(n, W - n);
    Pow2Add(n, W - 1 - n);
    hide Pow2;
    TruncatedDivisor(B, p, c, Pair(W, vhi, vlo), v1, low);
    EstimateIsTruncatedQuotient(U, v1, p, e, q1);
    EstimateIsGood(B, c, v1 * c, Pair(W, vhi, vlo), U);
  }

  /** The estimate: never too small, and too large by at most one. */
  method EstimateQuotient(h: nat, uhi: nat, ulo: nat, vhi: nat, vlo: nat) returns (qhi: nat, qlo: nat)
    requires h >= 1 && uhi < Pow2(h + h) && ulo < Pow2(h + h) && 0 < vhi < Pow2(h + h) && vlo < Pow2(h + h)
    ensures qhi < Pow2(h + h) && qlo < Pow2(h + h)
    ensures Pair(h + h, vhi, vlo) > 0
    ensures GoodEstimate(Pair(h + h, uhi, ulo), Pair(h + h, vhi, vlo), Pair(h + h, qhi, qlo))
  {
    var W := h + h;
    assert Pow2(1) == 2 && Pow2(W) == 2 * Pow2(W - 1);
    hide Pow2, LeadingZeros, GoodEstimate;
    var n := LeadingZeros(W, vhi);
    var v1, vLow := ShiftDouble(W, vhi, vlo, n);
    NormalizedPair(W, vhi, vlo, n, v1, vLow);
    var u1hi, u1lo := ShiftDouble(W, uhi, ulo, -1);
    PairBelow(W, uhi, ulo);
    HalfBelow(W, Pair(W, uhi, ulo), u1hi, u1lo);
    var q1, rem := DivideDoubleBySingle(h, u1hi, u1lo, v1);
    DivUnique(Pair(W, uhi, ulo) / 2, v1, q1, rem);
    qhi, qlo := ShiftDouble(W, 0, q1, n);
    ShiftIsExact(W, n, q1);
    qhi, qlo := ShiftDouble(W, qhi, qlo, -(W - 1));
    MulStrict(0, vhi, Pow2(W));
    EstimateResult(W, n, vhi, vlo, Pair(W, uhi, ulo), v1, vLow, q1);
  }

  lemma ShiftIsExact(W: nat, n: nat, q: nat)
    requires n < W && q < Pow2(W)
    ensures Pow2(W) * Pow2(W) > 0 && ((0 * Pow2(W) + q) * Pow2(n)) % (Pow2(W) * Pow2(W)) == q * Pow2(n)
  {
    Pow2Mono(n, W);
    hide Pow2;
    MulMono(Pow2(n), Pow2(W), q);
    MulMono(0, q, Pow2(n));
    MulStrict(q, Pow2(W), Pow2(W));
    DivUnique(q * Pow2(n), Pow2(W) * Pow2(W), 0, q * Pow2(n));
  }

  /** A lowered good estimate leaves a remainder below twice the divisor. */
  lemma LoweredEstimate(B: nat, U: nat, V: nat, q0: nat, k: nat)
    requires V > 0 && GoodEstimate(U, V, q0) && k == (if q0 == 0 then 0 else q0 - 1) && U < V * B
    ensures 0 <= U - k * V < 2 * V && k < B
    ensures U - k * V >= V ==> k + 1 < B
  {
    DivMod(U, V);
    DivBelow(U, V, B);
    MulMono(k, U / V, V);
    MulMono(U / V, k + 1, V);
  }

  /** Lowers the estimate by one unless it is zero; what is left fits one word. */
  method LowerQuotient(W: nat, ghost U: nat, ghost V: nat, qhi0: nat, qlo0: nat) returns (qhi: nat, qlo: nat)
    requires qhi0 < Pow2(W) && qlo0 < Pow2(W) && V > 0 && U < V * Pow2(W)
    requires GoodEstimate(U, V, Pair(W, qhi0, qlo0))
    ensures qhi == 0 && qlo < Pow2(W)
    ensures 0 <= U - qlo * V < 2 * V && (U - qlo * V >= V ==> qlo + 1 < Pow2(W))
  {
    hide Pow2, Wrap, GoodEstimate, Pair;
    qhi, qlo := qhi0, qlo0;
    PairZero(W, qhi, qlo);
    if qhi != 0 || qlo != 0 {
      PairOne(W);
      assert Pow2(W) > 1;
      SubtractPair(W, qhi, qlo, 0, 1);
      qhi := Wrap(W, qhi - (if qlo == 0 then 1 else 0));
      qlo := Wrap(W, qlo - 1);
    }
    LoweredEstimate(Pow2(W), U, V, Pair(W, qhi0, qlo0), Pair(W, qhi, qlo));
    SmallPair(W, qhi, qlo);
    PairLow(W, qlo);
  }

  /** {uhi, ulo} minus q times {vhi, vlo}, through a wrapped pair product and a borrow. */
  method SubtractProduct(h: nat, uhi: nat, ulo: nat, vhi: nat, vlo: nat, qhi: nat, qlo: nat) returns (rhi: nat, rlo: nat)
    requires uhi < Pow2(h + h) && ulo < Pow2(h + h) && vlo < Pow2(h + h) && qhi == 0 && qlo < Pow2(h + h)
    requires qlo * Pair(h + h, vhi, vlo) <= Pair(h + h, uhi, ulo)
    ensures rhi < Pow2(h + h) && rlo < Pow2(h + h)
    ensures Pair(h + h, rhi, rlo) == Pair(h + h, uhi, ulo) - qlo * Pair(h + h, vhi, vlo)
  {
    var W := h + h;
    hide Pow2, Wrap, MulHighUnsigned, Pair;
    PairBelow(W, uhi, ulo);
    MultiplyPair(h, qlo, vhi, vlo);
    var pvhi := Wrap(W, qhi * vlo + qlo * vhi + MulHighUnsigned(h, qlo, vlo));
    var pvlo := Wrap(W, qlo * vlo);
    SubtractPair(W, uhi, ulo, pvhi, pvlo);
    rhi := Wrap(W, uhi - (pvhi + (if ulo < pvlo then 1 else 0)));
    rlo := Wrap(W, ulo - pvlo);
  }

  /** Lowers the estimate, multiplies back, subtracts, and corrects once. */
  method CorrectEstimate(h: nat, uhi: nat, ulo: nat, vhi: nat, vlo: nat, qhi0: nat, qlo0: nat)
    returns (q: nat, rhi: nat, rlo: nat)
    requires uhi < Pow2(h + h) && ulo < Pow2(h + h) && vhi < Pow2(h + h) && vlo < Pow2(h + h)
    requires qhi0 < Pow2(h + h) && qlo0 < Pow2(h + h) && Pair(h + h, vhi, vlo) > 0
    requires Pair(h + h, uhi, ulo) < Pair(h + h, vhi, vlo) * Pow2(h + h)
    requires GoodEstimate(Pair(h + h, uhi, ulo), Pair(h + h, vhi, vlo), Pair(h + h, qhi0, qlo0))
    ensures Pair(h + h, uhi, ulo) == q * Pair(h + h, vhi, vlo) + Pair(h + h, rhi, rlo)
    ensures Pair(h + h, rhi, rlo) < Pair(h + h, vhi, vlo) && q < Pow2(h + h)
    ensures rhi < Pow2(h + h) && rlo < Pow2(h + h)
  {
    var W := h + h;
    hide Pow2, Wrap, GoodEstimate, Pair;
    var qhi, qlo := LowerQuotient(W, Pair(W, uhi, ulo), Pair(W, vhi, vlo), qhi0, qlo0);
    rhi, rlo := SubtractProduct(h, uhi, ulo, vhi, vlo, qhi, qlo);
    ComparePair(W, rhi, rlo, vhi, vlo);
    if rhi > vhi || (rhi == vhi && rlo >= vlo) {
      WrapOfSmall(W, qlo + 1);
      qlo := Wrap(W, qlo + 1);
      qhi := Wrap(W, qhi + (if qlo == 0 then 1 else 0));
      SubtractPair(W, rhi, rlo, vhi, vlo);
      var borrow := if rlo < vlo then 1 else 0;
      rhi := Wrap(W, rhi - (vhi + borrow));
      rlo := Wrap(W, rlo - vlo);
    }
    q := qlo;
  }

  /** Portable 128/128 division with a quotient of one word and a remainder of two. */
  method DivideDoubleByDouble(h: nat, uhi: nat, ulo: nat, vhi: nat, vlo: nat) returns (q: nat, rhi: nat, rlo: nat)
    requires h >= 1 && uhi < Pow2(h + h) && ulo < Pow2(h + h) && vhi < Pow2(h + h) && vlo < Pow2(h + h)
    requires Pair(h + h, uhi, ulo) < Pair(h + h, vhi, vlo) * Pow2(h + h)
    ensures Pair(h + h, uhi, ulo) == q * Pair(h + h, vhi, vlo) + Pair(h + h, rhi, rlo)
    ensures Pair(h + h, rhi, rlo) < Pair(h + h, vhi, vlo) && q < Pow2(h + h)
    ensures rhi < Pow2(h + h) && rlo < Pow2(h + h)
  {
    hide Pow2, GoodEstimate;
    if vhi == 0 {
      MulCancelLt(uhi, vlo, Pow2(h + h));
      rhi := 0;
      q, rlo := DivideDoubleBySingle(h, uhi, ulo, vlo);
    } else {
      var qhi, qlo := EstimateQuotient(h, uhi, ulo, vhi, vlo);
      q, rhi, rlo := CorrectEstimate(h, uhi, ulo, vhi, vlo, qhi, qlo);
    }
  }

  lemma PairZero(W: nat, hi: nat, lo: nat)
    ensures Pair(W, hi, lo) == 0 <==> hi == 0 && lo == 0
  {
    hide Pow2;
    if hi > 0 {
      MulMono(1, hi, Pow2(W));
    }
  }

  lemma PairOne(W: nat)
    ensures Pair(W, 0, 1) == 1
  {
  }

  lemma PairLow(W: nat, lo: nat)
    ensures Pair(W, 0, lo) == lo
  {
  }
}

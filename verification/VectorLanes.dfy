/** One lane of libdivide's AVX2 code for signed 64-bit numerators. A lane is a word of
    W == 2*h bits; the intrinsics only offer h-bit products and h-bit arithmetic shifts. */
module VectorLanes {
  import opened Words
  import opened Bits
  import opened WideArithmetic
  import opened WideDivision
  import opened MagicNumbers
  import opened SignedDivider

  // ---------- lane operations ----------

  /** The high half word, shifted arithmetically by h - 1 and duplicated. */
  function SignBits(h: nat, v: nat): (r: nat)
    requires h > 0
  {
    var s := Wrap(h, ToSigned(h, Shr(v, h)) / Pow2(h - 1));
    MulNonneg(s, Pow2(h));
    s * Pow2(h) + s
  }

  /** Arithmetic right shift emulated by a logical one, an xor and a subtraction. */
  function ShiftRight(W: nat, v: nat, amt: nat): (r: nat)
    requires amt < W
  {
    var m := Pow2(W - amt - 1);
    Wrap(W, Xor(Shr(v, amt), m) - m)
  }

  function MulHigh(h: nat, x: nat, y: nat): (r: nat)
    requires x < Pow2(h + h) && y < Pow2(h + h)
  {
    var mask := Pow2(h) - 1;
    MulHighOfDigits(h, h + h, Shr(x, h), And(x, mask), Shr(y, h), And(y, mask))
  }

  function MulHighOfDigits(h: nat, W: nat, x1: nat, x0: nat, y1: nat, y0: nat): (r: nat)
  {
    var x0y0Hi := Shr(x0 * y0, h);
    var x0y1 := Wrap(W, x0 * y1);
    var x1y0 := Wrap(W, x1 * y0);
    var x1y1 := Wrap(W, x1 * y1);
    var temp := Wrap(W, x1y0 + x0y0Hi);
    var tempLo := Shr(Wrap(W, And(temp, Pow2(h) - 1) + x0y1), h);
    var tempHi := Wrap(W, x1y1 + Shr(temp, h));
    Wrap(W, tempLo + tempHi)
  }

  /** Signed high half from the unsigned one, corrected by each operand the other's sign selects. */
  function SignedMulHigh(h: nat, x: nat, y: nat): (r: nat)
    requires h > 0 && x < Pow2(h + h) && y < Pow2(h + h)
  {
    var W := h + h;
    var t1 := And(SignBits(h, x), y);
    var t2 := And(SignBits(h, y), x);
    Wrap(W, Wrap(W, MulHigh(h, x, y) - t1) - t2)
  }

  /** libdivide_s64_do_vec256 on one lane. */
  function DoLane(h: nat, v: nat, denom: Divider): (r: nat)
    requires h == 32 && v < Pow2(h + h) && ValidSigned(h + h, denom)
  {
    var W := h + h;
    var shift := And(denom.more, W - 1);
    AndSmall(denom.more, W - 1);
    var sign := SignMask(denom.more);
    if denom.magic == 0 then
      var mask := Pow2(shift) - 1;
      var q := ShiftRight(W, Wrap(W, v + And(SignBits(h, v), mask)), shift);
      Wrap(W, Xor(q, Wrap(W, sign)) - sign)
    else
      var high := SignedMulHigh(h, v, Wrap(W, denom.magic));
      var sum := if And(denom.more, ADD_MARKER) != 0
                 then Wrap(W, high + Wrap(W, Xor(v, Wrap(W, sign)) - sign)) else high;
      var q := ShiftRight(W, sum, shift);
      Wrap(W, q + Shr(q, W - 1))
  }

  lemma AndSmall(x: nat, y: nat)
    ensures And(x, y) <= y
  {
  }

  // ---------- each operation is exact ----------

  lemma ToSignedFits(W: nat, v: nat)
    requires W > 0 && v < Pow2(W)
    ensures FitsSigned(W, ToSigned(W, v)) && Wrap(W, ToSigned(W, v)) == v
  {
    hide Pow2, Wrap;
    TopPower(W);
    if v < Pow2(W - 1) {
      WrapOfSmall(W, v);
    } else {
      WrapShifted(W, v - Pow2(W), 1);
      WrapOfSmall(W, v);
    }
  }

  lemma SignBitsIs(h: nat, v: nat)
    requires h > 0 && v < Pow2(h + h)
    ensures SignBits(h, v) == if v < Pow2(h + h - 1) then 0 else Pow2(h + h) - 1
  {
    var W := h + h;
    hide Pow2, Wrap, And, Shr, ToSigned;
    Pow2Add(h, h);
    Pow2Add(h - 1, h);
    SplitWord(h, v);
    var hi := Shr(v, h);
    ToSignedFits(h, hi);
    HalfTest(Pow2(h), Pow2(h - 1), hi, And(v, Pow2(h) - 1));
    SignOfHigh(h, hi);
    AllOnes(Pow2(h));
  }

  lemma AllOnes(b: int)
    ensures (b - 1) * b + (b - 1) == b * b - 1
  {
  }

  lemma HalfTest(b: int, c: int, hi: int, lo: int)
    requires 0 <= lo < b
    ensures hi * b + lo < c * b <==> hi < c
  {
    if hi < c {
      MulMono(hi + 1, c, b);
    } else {
      MulMono(c, hi, b);
    }
  }

  lemma SignOfHigh(h: nat, hi: nat)
    requires h > 0 && hi < Pow2(h)
    ensures Wrap(h, ToSigned(h, hi) / Pow2(h - 1)) == if hi < Pow2(h - 1) then 0 else Pow2(h) - 1
  {
    hide Pow2, Wrap;
    TopPower(h);
    if hi < Pow2(h - 1) {
      DivUnique(hi, Pow2(h - 1), 0, hi);
      WrapOfSmall(h, 0);
    } else {
      DivUnique(hi - Pow2(h), Pow2(h - 1), -1, hi - Pow2(h) + Pow2(h - 1));
      WrapShifted(h, -1, 1);
      WrapOfSmall(h, Pow2(h) - 1);
    }
  }

  lemma FloorOfSigned(v: int, p: int, m: int, x: int, r: int)
    requires p > 0 && v == x * p + r && 0 <= r < p
    ensures v / p == x && (v - (2 * m) * p) / p == x - 2 * m
  {
    DivUnique(v, p, x, r);
    assert (x - 2 * m) * p == x * p - (2 * m) * p;
    DivUnique(v - (2 * m) * p, p, x - 2 * m, r);
  }

  /** The shifted word and the shifted signed value, from the split v == x*Pow2(amt) + rest. */
  lemma ShiftFacts(W: nat, v: nat, amt: nat, b: nat)
    requires amt + b == W && b > 0 && v < Pow2(W)
    ensures Shr(v, amt) < Pow2(b)
    ensures ToSigned(W, v) / Pow2(amt) == if Shr(v, amt) < Pow2(b - 1) then Shr(v, amt) else Shr(v, amt) - 2 * Pow2(b - 1)
  {
    hide Pow2, Shr;
    Pow2Add(b - 1, amt);
    Pow2Add(b, amt);
    TopPower(b);
    ShrSplit(v, amt);
    ShiftValues(v, Pow2(amt), Pow2(b - 1), Shr(v, amt), v % Pow2(amt));
  }

  lemma ShiftValues(v: int, p: int, m: int, x: int, r: int)
    requires p > 0 && v == x * p + r && 0 <= r < p && v < (2 * m) * p
    ensures v < m * p <==> x < m
    ensures x < 2 * m && v / p == x && (v - (2 * m) * p) / p == x - 2 * m
  {
    HalfTest(p, m, x, r);
    HalfTest(p, 2 * m, x, r);
    FloorOfSigned(v, p, m, x, r);
  }

  /** The emulated shift is the arithmetic shift of the signed value. */
  lemma ShiftRightIs(W: nat, v: nat, amt: nat)
    requires amt < W && v < Pow2(W)
    ensures ShiftRight(W, v, amt) == Wrap(W, ToSigned(W, v) / Pow2(amt))
  {
    hide Pow2, Wrap, Xor, Shr, Bit, ToSigned;
    var b := W - amt;
    ShiftFacts(W, v, amt, b);
    TopBitOf(Shr(v, amt), b);
    XorPow2(Shr(v, amt), b - 1);
  }

  lemma TopBitOf(x: nat, b: nat)
    requires b > 0 && x < Pow2(b)
    ensures Bit(x, b - 1) <==> x >= Pow2(b - 1)
  {
    hide Pow2;
    TopPower(b);
    var m := Pow2(b - 1);
    if x < m {
      DivUnique(x, m, 0, x);
    } else {
      DivUnique(x, m, 1, x - m);
    }
  }

  lemma MulHighIs(h: nat, x: nat, y: nat)
    requires x < Pow2(h + h) && y < Pow2(h + h)
    ensures MulHigh(h, x, y) == (x * y) / Pow2(h + h)
  {
    hide Pow2, Wrap, And, Shr;
    MulHighUnsignedExact(h, x, y);
    SameChain(h, h + h, Shr(x, h), And(x, Pow2(h) - 1), Shr(y, h), And(y, Pow2(h) - 1));
  }

  /** The lane adds the two upper parts in another order, which wrapping does not notice. */
  lemma SameChain(h: nat, W: nat, x1: nat, x0: nat, y1: nat, y0: nat)
    ensures MulHighOfDigits(h, W, x1, x0, y1, y0) == MulHighDigits(h, W, x1, x0, y1, y0)
  {
    hide Pow2, Wrap, And, Shr;
    MulNonneg(x0, y0);
    var temp := Wrap(W, Wrap(W, x1 * y0) + Shr(x0 * y0, h));
    var hi := Wrap(W, x1 * y1) + Shr(temp, h);
    var lo := Shr(Wrap(W, And(temp, Pow2(h) - 1) + Wrap(W, x0 * y1)), h);
    WrapAdd(W, hi, lo);
  }

  /** Unsigned minus signed high half, per operand sign. */
  lemma SignedHighValue(B: int, x: int, y: int, sx: int, sy: int)
    requires B > 0
    ensures ((x + sx * B) * (y + sy * B)) / B == (x * y) / B + sx * y + sy * x + (sx * sy) * B
  {
    var k := sx * y + sy * x + (sx * sy) * B;
    calc {
      (x + sx * B) * (y + sy * B);
      x * y + x * (sy * B) + (sx * B) * y + (sx * B) * (sy * B);
      x * y + k * B;
    }
    ModAddMultiple(x * y, k, B);
  }

  /** The sign-corrected product is the signed high half, as a word. */
  lemma SignedMulHighIs(h: nat, x: int, y: int)
    requires h > 0 && FitsSigned(h + h, x) && FitsSigned(h + h, y)
    ensures SignedMulHigh(h, Wrap(h + h, x), Wrap(h + h, y)) == Wrap(h + h, (x * y) / Pow2(h + h))
  {
    var W := h + h;
    hide Pow2, Wrap, And, SignBits, MulHigh, FitsSigned, IsHigh, SignedMulHigh;
    var sx, sy := if x < 0 then 1 else 0, if y < 0 then 1 else 0;
    var ux, uy := Wrap(W, x), Wrap(W, y);
    SignSplit(W, x);
    SignSplit(W, y);
    SelectedOperand(h, ux, uy);
    SelectedOperand(h, uy, ux);
    HighPart(h, ux, uy);
    HighIs(W, x, y);
    SignedMulHighBody(h, ux, uy);
    CorrectedHigh(W, x, y, sx, sy, ux, uy, MulHigh(h, ux, uy), And(SignBits(h, ux), uy), And(SignBits(h, uy), ux),
                  (x * y) / Pow2(W));
  }

  lemma SignedMulHighBody(h: nat, x: nat, y: nat)
    requires h > 0 && x < Pow2(h + h) && y < Pow2(h + h)
    ensures SignedMulHigh(h, x, y)
         == Wrap(h + h, Wrap(h + h, MulHigh(h, x, y) - And(SignBits(h, x), y)) - And(SignBits(h, y), x))
  {
    hide Pow2, Wrap, And, SignBits, MulHigh;
  }

  lemma HighIs(W: nat, x: int, y: int)
    ensures IsHigh(W, x, y, (x * y) / Pow2(W))
  {
  }

  ghost predicate IsHigh(W: nat, x: int, y: int, p: int) {
    p == (x * y) / Pow2(W)
  }

  lemma HighPart(h: nat, x: nat, y: nat)
    requires x < Pow2(h + h) && y < Pow2(h + h)
    ensures IsHigh(h + h, x, y, MulHigh(h, x, y))
  {
    hide Pow2, MulHigh;
    MulHighIs(h, x, y);
  }

  lemma CorrectedHigh(W: nat, x: int, y: int, sx: int, sy: int, ux: int, uy: int, p: int, t1: int, t2: int, hi: int)
    requires 0 <= sx <= 1 && 0 <= sy <= 1
    requires ux == x + (if sx == 1 then Pow2(W) else 0) && uy == y + (if sy == 1 then Pow2(W) else 0)
    requires IsHigh(W, x, y, hi) && IsHigh(W, ux, uy, p) && t1 == (if sx == 1 then uy else 0) && t2 == (if sy == 1 then ux else 0)
    ensures Wrap(W, Wrap(W, p - t1) - t2) == Wrap(W, hi)
  {
    hide Pow2, Wrap;
    CorrectionIs(Pow2(W), x, y, sx, sy, ux, uy, p, t1, t2);
    WrapTwice(W, p, t1, t2, hi, 0 - sx * sy);
  }

  lemma CorrectionIs(B: int, x: int, y: int, sx: int, sy: int, ux: int, uy: int, p: int, t1: int, t2: int)
    requires B > 0 && 0 <= sx <= 1 && 0 <= sy <= 1
    requires ux == x + (if sx == 1 then B else 0) && uy == y + (if sy == 1 then B else 0)
    requires p == (ux * uy) / B && t1 == (if sx == 1 then uy else 0) && t2 == (if sy == 1 then ux else 0)
    ensures p - t1 + -t2 == (x * y) / B + (0 - sx * sy) * B
  {
    OnlyOne(sx, B);
    OnlyOne(sy, B);
    OnlyOne(sx, uy);
    OnlyOne(sy, ux);
    SignedHighValue(B, x, y, sx, sy);
    CorrectionValue(B, (x * y) / B, p, x, y, sx, sy, ux, uy);
  }

  lemma OnlyOne(s: int, y: int)
    requires 0 <= s <= 1
    ensures s * y == if s == 1 then y else 0
  {
  }

  lemma WrapTwice(W: nat, p: int, s: int, t: int, hi: int, k: int)
    requires p - s + -t == hi + k * Pow2(W)
    ensures Wrap(W, Wrap(W, p - s) - t) == Wrap(W, hi)
  {
    hide Pow2, Wrap;
    WrapAdd(W, p - s, -t);
    WrapShifted(W, hi, k);
  }

  lemma CorrectionValue(B: int, hi: int, p: int, x: int, y: int, sx: int, sy: int, ux: int, uy: int)
    requires ux == x + sx * B && uy == y + sy * B && p == hi + sx * y + sy * x + (sx * sy) * B
    ensures p - sx * uy + -(sy * ux) == hi + (0 - sx * sy) * B
  {
    assert sx * uy == sx * y + (sx * sy) * B;
    assert sy * ux == sy * x + (sx * sy) * B;
  }

  lemma SignSplit(W: nat, x: int)
    requires W > 0 && FitsSigned(W, x)
    ensures Wrap(W, x) == x + (if x < 0 then Pow2(W) else 0)
    ensures x < 0 <==> Wrap(W, x) >= Pow2(W - 1)
  {
    hide Pow2, Wrap;
    TopPower(W);
    if x < 0 {
      WrapShifted(W, x, 1);
      WrapOfSmall(W, x + Pow2(W));
    } else {
      WrapOfSmall(W, x);
    }
  }

  lemma SelectedOperand(h: nat, x: nat, y: nat)
    requires h > 0 && x < Pow2(h + h) && y < Pow2(h + h)
    ensures And(SignBits(h, x), y) == if x >= Pow2(h + h - 1) then y else 0
  {
    hide Pow2, And, SignBits;
    SignBitsIs(h, x);
    AndComm(SignBits(h, x), y);
    if x >= Pow2(h + h - 1) {
      AndMask(y, h + h);
      DivUnique(y, Pow2(h + h), 0, y);
    } else {
      AndComm(0, y);
      AndZero(y);
    }
  }

  // ---------- the lane computes the scalar quotient ----------

  lemma LaneShiftPath(h: nat, n: int, shift: nat)
    requires h > 0 && shift < h + h && FitsSigned(h + h, n)
    ensures var W, mask := h + h, Pow2(shift) - 1;
            ShiftRight(W, Wrap(W, Wrap(W, n) + And(SignBits(h, Wrap(W, n)), mask)), shift)
              == Wrap(W, RoundedShift(W, n, mask, shift))
  {
    var W := h + h;
    hide Pow2, Wrap, And, SignBits, ShiftRight, ToSigned;
    Pow2Mono(shift, W);
    var mask := Pow2(shift) - 1;
    SignSplit(W, n);
    SelectedOperand(h, Wrap(W, n), mask);
    SignSelects(W, n, mask);
    WrapAdd(W, n, if n < 0 then mask else 0);
    ShiftRightIs(W, Wrap(W, n + (if n < 0 then mask else 0)), shift);
  }

  lemma LaneFinish(W: nat, sum: nat, shift: nat)
    requires W > 0 && shift < W && sum < Pow2(W)
    ensures var q := ToSigned(W, sum) / Pow2(shift);
            var lane := ShiftRight(W, sum, shift);
            Wrap(W, lane + Shr(lane, W - 1)) == Wrap(W, q + (if q < 0 then 1 else 0))
  {
    hide Pow2, Wrap, ShiftRight, ToSigned;
    ShiftRightIs(W, sum, shift);
    ToSignedFits(W, sum);
    var q := ToSigned(W, sum) / Pow2(shift);
    QuotientFitsSigned(ToSigned(W, sum), Pow2(shift), Pow2(W - 1));
    SignSplit(W, q);
    TopPower(W);
    TopBitShift(W, Wrap(W, q));
    WrapAdd(W, q, if q < 0 then 1 else 0);
  }

  lemma QuotientFitsSigned(x: int, p: int, H: int)
    requires p > 0 && H > 0 && -H <= x < H
    ensures -H <= x / p < H
  {
    MulMono(1, p, H);
    assert (-H) * p == -(H * p);
    SignedHighDigit(x, p, H, x / p, x % p);
  }

  lemma TopBitShift(W: nat, x: nat)
    requires W > 0 && x < Pow2(W)
    ensures Shr(x, W - 1) == if x >= Pow2(W - 1) then 1 else 0
  {
    hide Pow2;
    TopPower(W);
    if x >= Pow2(W - 1) {
      DivUnique(x, Pow2(W - 1), 1, x - Pow2(W - 1));
    } else {
      DivUnique(x, Pow2(W - 1), 0, x);
    }
  }

  lemma XorSubWord(W: nat, x: int, sign: int)
    requires sign == 0 || sign == -1
    ensures Wrap(W, Xor(Wrap(W, x), Wrap(W, sign)) - sign) == XorSub(W, x, sign)
  {
  }

  lemma LaneOnShiftPath(h: nat, W: nat, n: int, denom: Divider)
    requires h == 32 && W == h + h && FitsSigned(W, n) && ValidSigned(W, denom) && denom.magic == 0
    ensures DoLane(h, Wrap(W, n), denom) == Wrap(W, Do(W, n, denom))
  {
    hide Pow2, Wrap, And, Xor, SignBits, ShiftRight, ToSigned, XorSub, RoundedShift, SignedMulHigh, MulHighSignedWord, SignMask;
    var shift, sign := And(denom.more, W - 1), SignMask(denom.more);
    SignMaskIs(denom.more);
    LaneShiftPath(h, n, shift);
    var q := RoundedShift(W, n, Pow2(shift) - 1, shift);
    XorSubWord(W, q, sign);
    ToSignedFits(W, XorSub(W, q, sign));
  }

  lemma LaneOnMultiplyPath(h: nat, W: nat, n: int, denom: Divider)
    requires h == 32 && W == h + h && FitsSigned(W, n) && ValidSigned(W, denom) && denom.magic != 0
    ensures DoLane(h, Wrap(W, n), denom) == Wrap(W, Do(W, n, denom))
  {
    hide Pow2, Wrap, And, Xor, SignBits, ShiftRight, ToSigned, XorSub, RoundedShift, SignedMulHigh, MulHighSignedWord, SignMask, Shr;
    var shift, sign := And(denom.more, W - 1), SignMask(denom.more);
    SignMaskIs(denom.more);
    var uq := Wrap(W, MulHighSignedWord(W, denom.magic, n));
    assert SignedMulHigh(h, Wrap(W, n), Wrap(W, denom.magic)) == uq by {
      MulHighSignedWordExact(W, denom.magic, n);
      SignedMulHighIs(h, n, denom.magic);
      assert denom.magic * n == n * denom.magic;
    }
    XorSubWord(W, n, sign);
    LaneFinish(W, if And(denom.more, ADD_MARKER) != 0 then Wrap(W, uq + XorSub(W, n, sign)) else uq, shift);
  }

  /** For every lane value and every divider, the vector lane equals the scalar quotient. */
  lemma LaneEqualsScalar(h: nat, W: nat, n: int, denom: Divider)
    requires h == 32 && W == h + h && FitsSigned(W, n) && ValidSigned(W, denom)
    ensures IsWidth(W) && DoLane(h, Wrap(W, n), denom) == Wrap(W, Do(W, n, denom))
  {
    hide DoLane, Do, Wrap, Pow2;
    if denom.magic == 0 {
      LaneOnShiftPath(h, W, n, denom);
    } else {
      LaneOnMultiplyPath(h, W, n, denom);
    }
  }
}

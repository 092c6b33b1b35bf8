/** libdivide's signed dividers: truncating division by multiplication, arithmetic
    shift and sign correction. W is the width of the divided words, 32 or 64. */
module SignedDivider {
  import opened Words
  import opened Bits
  import opened WideArithmetic
  import opened MagicNumbers

  // ---------- two's complement ----------

  function ToSigned(W: nat, x: nat): (r: int)
    requires W > 0
  {
    if x < Pow2(W - 1) then x else x - Pow2(W)
  }

  /** Reinterpreting the wrapped value of an in-range integer gives it back. */
  lemma SignedWrap(W: nat, x: int)
    requires W > 0 && FitsSigned(W, x)
    ensures ToSigned(W, Wrap(W, x)) == x
  {
    hide Pow2, Wrap;
    TopPower(W);
    if x >= 0 {
      WrapOfSmall(W, x);
    } else {
      WrapShifted(W, x, 1);
      WrapOfSmall(W, x + Pow2(W));
    }
  }

  /** (int8_t)more >> 7: minus one for a negative divisor, zero otherwise. */
  function SignMask(more: nat): (s: int) {
    ToSigned(8, more) / 128
  }

  lemma SignMaskIs(more: nat)
    requires more < 256
    ensures SignMask(more) == if more >= 128 then -1 else 0
  {
    assert Pow2(7) == 128 && Pow2(8) == 256;
  }

  /** (q ^ sign) - sign on unsigned words. */
  function XorSub(W: nat, q: int, sign: int): (r: nat)
    ensures r < Pow2(W)
  {
    Wrap(W, Xor(Wrap(W, q), Wrap(W, sign)) - sign)
  }

  /** The idiom negates for sign == -1 and does nothing for sign == 0. */
  lemma XorSubIs(W: nat, q: int, sign: int)
    requires sign == 0 || sign == -1
    ensures XorSub(W, q, sign) == Wrap(W, if sign == 0 then q else -q)
  {
    hide Pow2, Wrap, Xor;
    var u: int := Wrap(W, q);
    if sign == 0 {
      WrapOfSmall(W, 0);
      XorZero(u);
      WrapAdd(W, q, 0);
    } else {
      WrapShifted(W, -1, 1);
      WrapOfSmall(W, Pow2(W) - 1);
      XorOnes(u, W);
      WrapShifted(W, 0 - u, 1);
      WrapNegate(W, q);
    }
  }

  lemma WrapNegate(W: nat, q: int)
    ensures Wrap(W, 0 - Wrap(W, q)) == Wrap(W, -q)
  {
    hide Pow2;
    DivMod(q, Pow2(W));
    var k := q / Pow2(W);
    assert 0 - Wrap(W, q) == -q + k * Pow2(W);
    ModAddMultiple(-q, k, Pow2(W));
  }

  // ---------- generator ----------

  function AbsoluteValue(W: nat, d: int): (a: nat) {
    var ud := Wrap(W, d);
    if d < 0 then Wrap(W, 0 - ud) else ud
  }

  function InternalGen(W: nat, d: int, branchfree: bool): (r: Outcome<Divider>)
    requires IsWidth(W) && FitsSigned(W, d)
  {
    if d == 0 then Aborted
    else
      var absD := AbsoluteValue(W, d);
      AbsIs(W, d);
      var f := W - 1 - LeadingZeros(W, absD);
      if And(absD, absD - 1) == 0 then
        Ok(Divider(0, Or(f, if d < 0 then NEGATIVE_DIVISOR else 0)))
      else
        LogOfNonPower(W, absD);
        var (proposed, rem) := WideQuotient(W, Pow2(f - 1), 0, absD);
        var e := absD - rem;
        var small := !branchfree && e < Pow2(f);
        var more := if small then f - 1 else Or(f, ADD_MARKER);
        var word := Wrap(W, 1 + (if small then proposed else DoubledMagic(W, absD, proposed, rem)));
        var magic := ToSigned(W, word);
        if d < 0 then
          Ok(Divider(if branchfree then magic else -magic, Or(more, NEGATIVE_DIVISOR)))
        else
          Ok(Divider(magic, more))
  }

  function Gen(W: nat, d: int): (r: Outcome<Divider>)
    requires IsWidth(W) && FitsSigned(W, d)
  {
    InternalGen(W, d, false)
  }

  function BranchfreeGen(W: nat, d: int): (r: Outcome<Divider>)
    requires IsWidth(W) && FitsSigned(W, d)
  {
    InternalGen(W, d, true)
  }

  lemma AbsIs(W: nat, d: int)
    requires W > 0 && FitsSigned(W, d)
    ensures AbsoluteValue(W, d) == (if d < 0 then -d else d) <= Pow2(W - 1) < Pow2(W)
  {
    hide Pow2, Wrap;
    TopPower(W);
    if d < 0 {
      WrapNegate(W, d);
      WrapOfSmall(W, -d);
    } else {
      WrapOfSmall(W, d);
    }
  }

  lemma LogOfNonPower(W: nat, a: nat)
    requires 0 < a < Pow2(W) && And(a, a - 1) != 0
    ensures W - 1 - LeadingZeros(W, a) == FloorLog2(a) && 1 <= FloorLog2(a)
    ensures Pow2(FloorLog2(a)) < a < 2 * Pow2(FloorLog2(a))
  {
    PowerOfTwoTest(a);
    assert Pow2(0) == 1 && Pow2(1) == 2;
  }

  // ---------- division ----------

  predicate ValidSigned(W: nat, denom: Divider)
    requires W > 0
  {
    FitsSigned(W, denom.magic) && denom.more < 256
  }

  function MulHighSignedWord(W: nat, x: int, y: int): (r: int)
    requires IsWidth(W)
  {
    if W == 64 then MulHighSigned(W / 2, x, y) else (x * y) / Pow2(W)
  }

  /** Adds bias to x if x is negative, then shifts right arithmetically. */
  function RoundedShift(W: nat, x: int, bias: nat, shift: nat): (q: int)
    requires W > 0
  {
    ToSigned(W, Wrap(W, x + And(Wrap(W, x / Pow2(W - 1)), bias))) / Pow2(shift)
  }

  function Do(W: nat, numer: int, denom: Divider): (q: int)
    requires IsWidth(W) && FitsSigned(W, numer) && ValidSigned(W, denom)
  {
    var shift := And(denom.more, W - 1);
    var sign := SignMask(denom.more);
    if denom.magic == 0 then
      var mask := Pow2(shift) - 1;
      ToSigned(W, XorSub(W, RoundedShift(W, numer, mask, shift), sign))
    else
      var uq := Wrap(W, MulHighSignedWord(W, denom.magic, numer));
      var sum := if And(denom.more, ADD_MARKER) != 0 then Wrap(W, uq + XorSub(W, numer, sign)) else uq;
      var q := ToSigned(W, sum) / Pow2(shift);
      q + (if q < 0 then 1 else 0)
  }

  function BranchfreeDo(W: nat, numer: int, denom: Divider): (q: int)
    requires IsWidth(W) && FitsSigned(W, numer) && ValidSigned(W, denom)
  {
    var shift := And(denom.more, W - 1);
    var sign := SignMask(denom.more);
    var high := ToSigned(W, Wrap(W, MulHighSignedWord(W, denom.magic, numer) + numer));
    var bias := Wrap(W, Pow2(shift) - (if denom.magic == 0 then 1 else 0));
    ToSigned(W, XorSub(W, RoundedShift(W, high, bias, shift), sign))
  }

  // ---------- recovery ----------

  function Recover(W: nat, denom: Divider): (d: int)
    requires IsWidth(W) && ValidSigned(W, denom)
  {
    var shift := And(denom.more, W - 1);
    var negative := And(denom.more, NEGATIVE_DIVISOR) != 0;
    if denom.magic == 0 then
      var absD := Shl(W, 1, shift);
      ToSigned(W, if negative then Wrap(W, 0 - absD) else absD)
    else
      var negated := if And(denom.more, ADD_MARKER) != 0 then denom.magic > 0 else denom.magic < 0;
      var word := Wrap(W, if negated then -denom.magic else denom.magic);
      NonzeroWord(W, if negated then -denom.magic else denom.magic);
      var result := ToSigned(W, Wrap(W, WideQuotient(W, Shl(W, 1, shift), 0, word).0 + 1));
      if negative then -result else result
  }

  lemma NonzeroWord(W: nat, x: int)
    requires W > 0 && x != 0 && 0 - Pow2(W - 1) <= x <= Pow2(W - 1)
    ensures Wrap(W, x) > 0
  {
    hide Pow2, Wrap;
    TopPower(W);
    if x > 0 {
      WrapOfSmall(W, x);
    } else {
      WrapShifted(W, x, 1);
      WrapOfSmall(W, x + Pow2(W));
    }
  }

  // ---------- what the generator produces ----------

  function Abs(x: int): (r: nat) {
    if x < 0 then -x else x
  }

  /** The magnitude divisor a is no power of two and Pow2(f) is the power below it. */
  ghost predicate Between(W: nat, f: nat, a: nat) {
    1 <= f <= W - 2 && Pow2(f) < a < 2 * Pow2(f) && 2 * Pow2(f) <= Pow2(W - 1)
  }

  /** The sign bit of `more`. */
  function SignBit(negative: bool): (r: nat) {
    if negative then 128 else 0
  }

  /** One multiplication suffices: the positive magic number m exceeds the exact ratio by less than Pow2(f). */
  ghost predicate SmallMagic(W: nat, f: nat, a: nat, m: int)
    requires W > 0
  {
    0 < m < Pow2(W - 1) && Pow2(W - 1) <= 2 * m && 0 < m * a - Pow2(W - 1) * Pow2(f) < Pow2(f)
  }

  /** The magic number needs its top bit, so the numerator is added back. */
  ghost predicate LargeMagic(W: nat, f: nat, a: nat, m: int)
    requires W > 0
  {
    Pow2(W - 1) < m < Pow2(W) && 0 < m * a - Pow2(W) * Pow2(f) <= a
  }

  ghost predicate SmallDivider(W: nat, f: nat, d: int, denom: Divider)
    requires W > 0
  {
    && f >= 1 && denom.more == f - 1 + SignBit(d < 0)
    && SmallMagic(W, f, Abs(d), if d < 0 then -denom.magic else denom.magic)
  }

  ghost predicate LargeDivider(W: nat, f: nat, d: int, branchfree: bool, denom: Divider)
    requires W > 0
  {
    && denom.more == f + 64 + SignBit(d < 0)
    && LargeMagic(W, f, Abs(d), Pow2(W) + (if d < 0 && !branchfree then -denom.magic else denom.magic))
  }

  lemma SignedBetween(W: nat, a: nat)
    requires W >= 2 && 0 < a <= Pow2(W - 1) && And(a, a - 1) != 0
    ensures Between(W, FloorLog2(a), a)
  {
    assert Pow2(W) == 2 * Pow2(W - 1);
    LogOfNonPower(W, a);
    var f := FloorLog2(a);
    hide And, LeadingZeros;
    Pow2Reflect(f, W - 1);
    Pow2Mono(f, W - 1);
  }

  lemma SmallWord(W: nat, f: nat, a: nat, pm: nat, rem: nat)
    requires W >= 2 && Between(W, f, a) && Pow2(W - 1) * Pow2(f) == pm * a + rem && rem < a && a - rem < Pow2(f)
    ensures SmallMagic(W, f, a, ToSigned(W, Wrap(W, 1 + pm)))
  {
    hide Pow2, Wrap;
    TopPower(W);
    SmallMagicRange(Pow2(W - 1), Pow2(f), a, pm, rem);
    WrapOfSmall(W, 1 + pm);
  }

  lemma LargeWord(W: nat, f: nat, a: nat, pm: nat, rem: nat)
    requires W >= 2 && Between(W, f, a) && a < Pow2(W) && Pow2(W - 1) * Pow2(f) == pm * a + rem && rem < a
    ensures LargeMagic(W, f, a, Pow2(W) + ToSigned(W, Wrap(W, 1 + DoubledMagic(W, a, pm, rem))))
  {
    var H, F := Pow2(W - 1), Pow2(f);
    assert Pow2(W) == 2 * H;
    hide Pow2, Wrap, DoubledMagic;
    DoubledMagicExact(W, a, H * F, pm, rem);
    var c := if rem + rem >= a then 1 else 0;
    var pm2, rem2 := pm + pm + c, rem + rem - c * a;
    LargeMagicRange(H, F, a, pm2, rem2);
    WrapOfSmall(W, pm2 + 1);
    LargeWordValue(H, F, a, pm2, rem2);
  }

  lemma LargeWordValue(H: int, F: int, a: int, pm2: int, rem2: int)
    requires 2 * (H * F) == pm2 * a + rem2 && 0 <= rem2 < a
    ensures 0 < (pm2 + 1) * a - (2 * H) * F <= a
  {
    assert (pm2 + 1) * a == pm2 * a + a;
    assert (2 * H) * F == 2 * (H * F);
  }

  /** Adding the sign bit to a byte below 128. */
  lemma WithSign(more: nat)
    requires more < 128
    ensures Or(more, NEGATIVE_DIVISOR) == more + 128
  {
    assert Pow2(7) == 128;
    hide Or, Pow2;
    OrDisjoint(more, 1, 7);
  }

  lemma HalfShift(W: nat, f: nat)
    requires W >= 1 && f >= 1
    ensures Pow2(f - 1) * Pow2(W) == Pow2(W - 1) * Pow2(f)
  {
    assert Pow2(W) == 2 * Pow2(W - 1) && Pow2(f) == 2 * Pow2(f - 1);
    hide Pow2;
    var x, y := Pow2(f - 1), Pow2(W - 1);
    assert x * (2 * y) == y * (2 * x);
  }

  /** The generator yields a pure shift exactly for plus or minus a power of two, otherwise a sound magic number. */
  lemma GenShape(W: nat, d: int, branchfree: bool)
    requires IsWidth(W) && FitsSigned(W, d) && d != 0
    ensures var a := Abs(d); var f := FloorLog2(a); var r := InternalGen(W, d, branchfree);
            && f < W && a < Pow2(W) && r.Ok?
            && (a == Pow2(f) ==> r.value == Divider(0, f + SignBit(d < 0)))
            && (a != Pow2(f) ==> Between(W, f, a))
            && (a != Pow2(f) ==> (!branchfree && SmallDivider(W, f, d, r.value)) || LargeDivider(W, f, d, branchfree, r.value))
  {
    hide Pow2, Wrap, And, Or, LeadingZeros, DoubledMagic, WideQuotient, AbsoluteValue, ToSigned, SmallMagic, LargeMagic;
    AbsIs(W, d);
    var a := Abs(d);
    var f := FloorLog2(a);
    FloorLog2Below(a, W);
    PowerOfTwoTest(a);
    ShiftBits(W, f);
    OrZero(f);
    if And(a, a - 1) == 0 {
      WithSign(f);
      PowerShape(W, d, branchfree, a, f);
    } else {
      SignedBetween(W, a);
      NonPowerShape(W, d, branchfree, a, f);
    }
  }

  /** The generators refuse zero and nothing else. */
  lemma AbortsIff(W: nat, d: int)
    requires IsWidth(W) && FitsSigned(W, d)
    ensures Gen(W, d) == Aborted <==> d == 0
    ensures BranchfreeGen(W, d) == Aborted <==> d == 0
  {
    if d != 0 {
      hide InternalGen, Pow2;
      GenShape(W, d, false);
      GenShape(W, d, true);
    }
  }

  lemma PowerShape(W: nat, d: int, branchfree: bool, a: nat, f: nat)
    requires IsWidth(W) && FitsSigned(W, d) && d != 0 && a == AbsoluteValue(W, d) && 0 < a < Pow2(W) && f == FloorLog2(a)
    requires And(a, a - 1) == 0
    requires Or(f, NEGATIVE_DIVISOR) == f + 128 && Or(f, 0) == f
    ensures InternalGen(W, d, branchfree) == Ok(Divider(0, f + SignBit(d < 0)))
  {
    hide Pow2, Wrap, And, Or, DoubledMagic, WideQuotient, AbsoluteValue, ToSigned, FloorLog2;
  }

  lemma NonPowerShape(W: nat, d: int, branchfree: bool, a: nat, f: nat)
    requires IsWidth(W) && FitsSigned(W, d) && d != 0 && a == AbsoluteValue(W, d) == Abs(d) && 0 < a < Pow2(W)
    requires f == FloorLog2(a) && And(a, a - 1) != 0 && Between(W, f, a)
    requires Or(f, ADD_MARKER) == f + 64
    ensures var r := InternalGen(W, d, branchfree);
            r.Ok? && ((!branchfree && SmallDivider(W, f, d, r.value)) || LargeDivider(W, f, d, branchfree, r.value))
  {
    hide Pow2, Wrap, And, Or, DoubledMagic, WideQuotient, AbsoluteValue, ToSigned, FloorLog2, SmallMagic, LargeMagic, LeadingZeros;
    LogOfNonPower(W, a);
    Pow2Mono(f - 1, f);
    WideQuotientExact(W, Pow2(f - 1), 0, a);
    HalfShift(W, f);
    var (pm, rem) := WideQuotient(W, Pow2(f - 1), 0, a);
    WithSign(f - 1);
    WithSign(f + 64);
    if !branchfree && a - rem < Pow2(f) {
      SmallWord(W, f, a, pm, rem);
    } else {
      LargeWord(W, f, a, pm, rem);
    }
  }

  // ---------- division is exact ----------

  /** Division rounding toward zero, as the / operator of C++. */
  function TruncDiv(n: int, d: int): (q: int)
    requires d != 0
  {
    var q := Abs(n) / Abs(d);
    if (n < 0) == (d < 0) then q else -q
  }

  /** Floor of m*x/P for either sign of x: one below the truncated quotient when x is negative. */
  lemma SignedMagicQuotient(P: int, m: int, a: int, e: int, x: int)
    requires P > 0 && a > 0 && m > 0 && m * a == P + e && 0 < e && Abs(x) * e < P
    ensures (m * x) / P == if x >= 0 then x / a else -((-x) / a) - 1
  {
    if x >= 0 {
      MagicQuotient(P, m, a, e, x);
    } else {
      var y := -x;
      var q, r := y / a, y % a;
      DivMod(y, a);
      assert q * P < m * y && m * y < (q + 1) * P by { StrictMagic(P, m, a, e, y, q, r); }
      assert m * x == -(m * y);
      assert (-q - 1) * P == -((q + 1) * P) && (-q) * P == -(q * P);
      DivBetween(m * x, P, -q - 1);
    }
  }

  lemma StrictMagic(P: int, m: int, a: int, e: int, y: int, q: int, r: int)
    requires P > 0 && a > 0 && m > 0 && m * a == P + e && 0 < e && 0 < y && y * e < P && y == q * a + r && 0 <= r < a
    ensures q * P < m * y < (q + 1) * P
  {
    MagicUpper(P, m, a, e, y, q, r);
    assert 0 <= q by { QuotientNonneg(a, q, r); }
    ExcessParts(P, m, a, e, q, r);
    ExcessPositive(m, e, q, r, a);
  }

  lemma QuotientNonneg(a: int, q: int, r: int)
    requires a > 0 && 0 < q * a + r && r < a
    ensures 0 <= q
  {
    if q < 0 {
      MulMono(q, -1, a);
    }
  }

  lemma ExcessParts(P: int, m: int, a: int, e: int, q: int, r: int)
    requires m * a == P + e
    ensures m * (q * a + r) == q * P + q * e + m * r
  {
    assert m * (q * a) == q * (m * a);
  }

  lemma ExcessPositive(m: int, e: int, q: int, r: int, a: int)
    requires m > 0 && e > 0 && q >= 0 && 0 <= r && 0 < q * a + r
    ensures 0 < q * e + m * r
  {
    MulNonneg(q, e);
    MulNonneg(m, r);
    if q > 0 {
      MulStrict(0, q, e);
    } else {
      MulStrict(0, r, m);
    }
  }

  /** The quotient after the final sign correction, in terms of the signed numerator x over a > 0. */
  function Corrected(q: int): (r: int) {
    q + (if q < 0 then 1 else 0)
  }

  lemma CorrectedIsTrunc(n: int, d: int, a: int, q: int)
    requires d != 0 && a == Abs(d)
    requires var x := if d < 0 then -n else n; q == if x >= 0 then x / a else -((-x) / a) - 1
    ensures Corrected(q) == TruncDiv(n, d)
  {
    DivNonneg(Abs(n), a);
    DivNonneg(0, a);
  }

  lemma MulHighSignedWordExact(W: nat, x: int, y: int)
    requires IsWidth(W) && FitsSigned(W, x) && FitsSigned(W, y)
    ensures MulHighSignedWord(W, x, y) == (x * y) / Pow2(W)
  {
    hide Pow2, MulHighSigned;
    var h := W / 2;
    assert h + h == W;
    if W == 64 {
      MulHighSignedExact(h, x, y);
    }
  }

  /** A numerator times a magic number below B, divided by B, stays in the signed range. */
  lemma HighPartFits(H: int, m: int, x: int)
    requires H > 0 && 0 <= m < 2 * H && -H <= x <= H
    ensures -H <= (m * x) / (2 * H) < H
  {
    DivMod(m * x, 2 * H);
    ScaledBound(H, m, x, m * x, H * (2 * H));
    DigitBounds(m * x, 2 * H, H, (m * x) / (2 * H), (m * x) % (2 * H));
  }

  lemma ScaledBound(H: int, m: int, x: int, mx: int, HH: int)
    requires H > 0 && 0 <= m < 2 * H && -H <= x <= H && mx == m * x && HH == H * (2 * H)
    ensures -HH <= mx < HH
  {
    MulMono(x, H, m);
    MulMono(-H, x, m);
    MulStrict(m, 2 * H, H);
    assert m * (-H) == -(m * H);
  }

  lemma ExcessFits(H: int, F: int, e: int, x: int)
    requires 0 < e < F && 0 < H && Abs(x) <= H
    ensures Abs(x) * e < H * F && 0 < H * F
  {
    MulMono(Abs(x), H, e);
    MulStrict(e, F, H);
  }

  lemma SmallQuotient(W: nat, f: nat, a: nat, m: int, x: int)
    requires W >= 2 && Between(W, f, a) && SmallMagic(W, f, a, m) && Abs(x) <= Pow2(W - 1)
    ensures ((m * x) / Pow2(W)) / Pow2(f - 1) == if x >= 0 then x / a else -((-x) / a) - 1
  {
    hide Pow2;
    HalfShift(W, f);
    SmallQuotientValue(Pow2(W - 1), Pow2(f), Pow2(W), Pow2(f - 1), a, m, x);
  }

  lemma SmallQuotientValue(H: int, F: int, B: int, G: int, a: int, m: int, x: int)
    requires H > 0 && F > 0 && B > 0 && G > 0 && G * B == H * F && a > 0 && m > 0 && Abs(x) <= H
    requires 0 < m * a - H * F < F
    ensures ((m * x) / B) / G == if x >= 0 then x / a else -((-x) / a) - 1
  {
    DivDiv(m * x, B, G);
    ExcessFits(H, F, m * a - H * F, x);
    SignedMagicQuotient(H * F, m, a, m * a - H * F, x);
  }

  lemma LargeQuotient(W: nat, f: nat, a: nat, m: int, x: int)
    requires W >= 2 && Between(W, f, a) && LargeMagic(W, f, a, m) && Abs(x) <= Pow2(W - 1)
    ensures ((m * x) / Pow2(W)) / Pow2(f) == if x >= 0 then x / a else -((-x) / a) - 1
  {
    hide Pow2;
    TopPower(W);
    var B, F := Pow2(W), Pow2(f);
    var P := B * F;
    LargeExcess(Pow2(W - 1), B, F, P, m * a - P, x);
    DivDiv(m * x, B, F);
    SignedMagicQuotient(P, m, a, m * a - P, x);
  }

  lemma LargeExcess(H: int, B: int, F: int, P: int, e: int, x: int)
    requires 0 < H && B == 2 * H && P == B * F && 0 < e < 2 * F && Abs(x) <= H
    ensures Abs(x) * e < P
  {
    ExcessFits(H, 2 * F, e, x);
    assert H * (2 * F) == (2 * H) * F;
  }

  /** The byte fields of a generated divider. */
  lemma MoreFields(W: nat, f: nat, add: bool, negative: bool)
    requires IsWidth(W) && f < W
    ensures var more := f + (if add then 64 else 0) + SignBit(negative);
            && more < 256 && And(more, W - 1) == f
            && (And(more, ADD_MARKER) != 0 <==> add) && (And(more, NEGATIVE_DIVISOR) != 0 <==> negative)
            && SignMask(more) == if negative then -1 else 0
  {
    var more := f + (if add then 64 else 0) + SignBit(negative);
    hide And, SignMask, Bit, Pow2;
    SignMaskIs(more);
    MaskOfSum(W, f, (if add then 1 else 0) + (if negative then 2 else 0));
    BitSix(more);
    BitSeven(more);
  }

  lemma SmallDoValue(W: nat, f: nat, d: int, n: int, magic: int)
    requires W >= 2 && FitsSigned(W, n) && d != 0 && Between(W, f, Abs(d))
    requires SmallMagic(W, f, Abs(d), if d < 0 then -magic else magic)
    ensures Corrected(ToSigned(W, Wrap(W, (magic * n) / Pow2(W))) / Pow2(f - 1)) == TruncDiv(n, d)
  {
    hide Pow2, Wrap, ToSigned, TruncDiv, Corrected, Between, SmallMagic;
    TopPower(W);
    var m, x := if d < 0 then -magic else magic, if d < 0 then -n else n;
    assert magic * n == m * x;
    SmallMagicBounds(W, f, Abs(d), m);
    HighPartFits(Pow2(W - 1), m, x);
    SignedWrap(W, (m * x) / Pow2(W));
    BetweenBounds(W, f, Abs(d));
    SmallQuotient(W, f, Abs(d), m, x);
    CorrectedIsTrunc(n, d, Abs(d), ((m * x) / Pow2(W)) / Pow2(f - 1));
  }

  lemma SmallMagicBounds(W: nat, f: nat, a: nat, m: int)
    requires W > 0 && SmallMagic(W, f, a, m)
    ensures 0 < m < Pow2(W - 1)
  {
  }

  lemma BetweenBounds(W: nat, f: nat, a: nat)
    requires Between(W, f, a)
    ensures 1 <= f
  {
  }

  lemma SmallDo(W: nat, f: nat, d: int, n: int, denom: Divider)
    requires IsWidth(W) && FitsSigned(W, n) && ValidSigned(W, denom) && d != 0
    requires f < W && Between(W, f, Abs(d)) && SmallDivider(W, f, d, denom)
    ensures Do(W, n, denom) == TruncDiv(n, d)
  {
    hide Pow2, Wrap, And, SignMask, MulHighSignedWord, ToSigned, XorSub, TruncDiv, FitsSigned, IsWidth;
    MoreFields(W, f - 1, false, d < 0);
    MulHighSignedWordExact(W, denom.magic, n);
    SmallDoValue(W, f, d, n, denom.magic);
  }

  lemma LargeSum(W: nat, magic: int, n: int, x: int, negative: bool)
    requires W > 0 && x == if negative then -n else n
    ensures Wrap(W, Wrap(W, (magic * n) / Pow2(W)) + XorSub(W, n, if negative then -1 else 0))
         == Wrap(W, (((if negative then -magic else magic) + Pow2(W)) * x) / Pow2(W))
  {
    hide Pow2, Wrap, XorSub;
    var B, M := Pow2(W), if negative then -magic else magic;
    XorSubIs(W, n, if negative then -1 else 0);
    WrapAdd(W, (magic * n) / B, Wrap(W, x));
    WrapAdd(W, x, (magic * n) / B);
    assert magic * n == M * x;
    assert (M + B) * x == M * x + x * B;
    ModAddMultiple(M * x, x, B);
  }

  lemma LargeDoValue(W: nat, f: nat, d: int, n: int, m: int)
    requires W >= 2 && FitsSigned(W, n) && d != 0 && Between(W, f, Abs(d)) && LargeMagic(W, f, Abs(d), m)
    ensures var x := if d < 0 then -n else n;
            Corrected(ToSigned(W, Wrap(W, (m * x) / Pow2(W))) / Pow2(f)) == TruncDiv(n, d)
  {
    hide Pow2, Wrap, ToSigned, TruncDiv, Corrected, Between;
    TopPower(W);
    var x := if d < 0 then -n else n;
    HighPartFits(Pow2(W - 1), m, x);
    SignedWrap(W, (m * x) / Pow2(W));
    LargeQuotient(W, f, Abs(d), m, x);
    CorrectedIsTrunc(n, d, Abs(d), ((m * x) / Pow2(W)) / Pow2(f));
  }

  lemma LargeDo(W: nat, f: nat, d: int, n: int, denom: Divider)
    requires IsWidth(W) && FitsSigned(W, n) && ValidSigned(W, denom) && d != 0 && denom.magic != 0
    requires f < W && Between(W, f, Abs(d)) && LargeDivider(W, f, d, false, denom)
    ensures Do(W, n, denom) == TruncDiv(n, d)
  {
    hide Pow2, Wrap, And, SignMask, MulHighSignedWord, ToSigned, XorSub, TruncDiv;
    MoreFields(W, f, true, d < 0);
    MulHighSignedWordExact(W, denom.magic, n);
    LargeSum(W, denom.magic, n, if d < 0 then -n else n, d < 0);
    LargeDoValue(W, f, d, n, Pow2(W) + (if d < 0 then -denom.magic else denom.magic));
  }

  // ---------- the shift path and the branch-free form ----------

  /** Truncated quotient by a positive divisor. */
  function TowardZero(n: int, a: nat): (q: int)
    requires a > 0
  {
    if n >= 0 then n / a else -((-n) / a)
  }

  /** Adding p - 1 to a negative numerator turns flooring into truncation. */
  lemma BiasedShift(n: int, p: nat)
    requires p > 0
    ensures (n + (if n < 0 then p - 1 else 0)) / p == TowardZero(n, p)
  {
    if n < 0 {
      var y := -n;
      DivMod(y, p);
      var q := y / p;
      assert (-q) * p == -(q * p);
      DivUnique(n + p - 1, p, -q, p - 1 - y % p);
    }
  }

  /** Masking with the arithmetic shift by W - 1 selects the mask for negative x only. */
  lemma SignSelects(W: nat, x: int, mask: nat)
    requires W > 0 && FitsSigned(W, x) && mask < Pow2(W)
    ensures And(Wrap(W, x / Pow2(W - 1)), mask) == if x < 0 then mask else 0
  {
    hide Pow2, Wrap, And;
    var H := Pow2(W - 1);
    if x < 0 {
      DivUnique(x, H, -1, x + H);
      WrapShifted(W, -1, 1);
      WrapOfSmall(W, Pow2(W) - 1);
      AndComm(mask, Pow2(W) - 1);
      AndMask(mask, W);
      DivUnique(mask, Pow2(W), 0, mask);
    } else {
      DivUnique(x, H, 0, x);
      WrapOfSmall(W, 0);
      AndDisjoint(0, mask, 0);
      AndZero(mask);
    }
  }

  lemma AndZero(x: nat)
    ensures And(0, x) == 0
  {
  }

  /** The final conditional negation, for every pair except MIN / -1. */
  lemma SignApplied(W: nat, n: int, d: int, sign: int)
    requires W > 0 && FitsSigned(W, n) && d != 0 && !(n == 0 - Pow2(W - 1) && d == -1)
    requires sign == if d < 0 then -1 else 0
    ensures ToSigned(W, XorSub(W, TowardZero(n, Abs(d)), sign)) == TruncDiv(n, d)
  {
    hide Pow2, Wrap, ToSigned, XorSub;
    var a := Abs(d);
    XorSubIs(W, TowardZero(n, a), sign);
    QuotientSize(n, a);
    DivNonneg(0, a);
    SignedWrap(W, TruncDiv(n, d));
  }

  lemma QuotientSize(n: int, a: nat)
    requires a > 0
    ensures 0 <= Abs(n) / a <= Abs(n)
    ensures a >= 2 && n != 0 ==> Abs(n) / a < Abs(n)
  {
    DivNonneg(Abs(n), a);
    if a >= 2 && n != 0 {
      DivMod(Abs(n), a);
      if Abs(n) / a >= Abs(n) {
        MulMono(2, a, Abs(n));
      }
    }
  }

  /** The rounding step shared by the shift path and the branch-free power-of-two path. */
  lemma ShiftStep(W: nat, f: nat, n: int)
    requires W > 0 && f < W && FitsSigned(W, n)
    ensures Pow2(f) <= Pow2(W - 1) && Wrap(W, Pow2(f) - 1) == Pow2(f) - 1
    ensures RoundedShift(W, n, Pow2(f) - 1, f) == TowardZero(n, Pow2(f))
  {
    hide Pow2, Wrap, And, ToSigned;
    TopPower(W);
    Pow2Mono(f, W - 1);
    SignSelects(W, n, Pow2(f) - 1);
    SignedWrap(W, n + (if n < 0 then Pow2(f) - 1 else 0));
    BiasedShift(n, Pow2(f));
    WrapOfSmall(W, Pow2(f) - 1);
  }

  lemma ShiftDo(W: nat, f: nat, d: int, n: int, denom: Divider)
    requires IsWidth(W) && FitsSigned(W, n) && d != 0 && !(n == 0 - Pow2(W - 1) && d == -1)
    requires f < W && Abs(d) == Pow2(f) && denom == Divider(0, f + SignBit(d < 0)) && ValidSigned(W, denom)
    ensures Do(W, n, denom) == TruncDiv(n, d)
  {
    hide Pow2, Wrap, And, SignMask, MulHighSignedWord, ToSigned, XorSub, TruncDiv, TowardZero, RoundedShift;
    MoreFields(W, f, false, d < 0);
    ShiftStep(W, f, n);
    SignApplied(W, n, d, if d < 0 then -1 else 0);
  }

  lemma ShiftBranchfreeDo(W: nat, f: nat, d: int, n: int, denom: Divider)
    requires IsWidth(W) && FitsSigned(W, n) && d != 0 && !(n == 0 - Pow2(W - 1) && d == -1)
    requires f < W && Abs(d) == Pow2(f) && denom == Divider(0, f + SignBit(d < 0)) && ValidSigned(W, denom)
    ensures BranchfreeDo(W, n, denom) == TruncDiv(n, d)
  {
    hide Pow2, Wrap, And, SignMask, MulHighSignedWord, ToSigned, XorSub, TruncDiv, TowardZero, RoundedShift;
    MoreFields(W, f, false, d < 0);
    ShiftStep(W, f, n);
    SignApplied(W, n, d, if d < 0 then -1 else 0);
    assert MulHighSignedWord(W, 0, n) == 0 by {
      MulHighSignedWordExact(W, 0, n);
      DivUnique(0, Pow2(W), 0, 0);
    }
    SignedWrap(W, n);
  }

  /** The branch-free rounding of a product high part z, negative exactly when n is. */
  lemma BranchfreeStep(W: nat, f: nat, z: int)
    requires W >= 2 && f <= W - 2 && FitsSigned(W, z)
    ensures Wrap(W, Pow2(f) - 0) == Pow2(f)
    ensures RoundedShift(W, z, Pow2(f), f) == z / Pow2(f) + (if z < 0 then 1 else 0)
  {
    hide Pow2, Wrap, And, ToSigned;
    TopPower(W);
    Pow2Mono(f, W - 1);
    WrapOfSmall(W, Pow2(f));
    SignSelects(W, z, Pow2(f));
    SignedWrap(W, z + (if z < 0 then Pow2(f) else 0));
    ModAddMultiple(z, 1, Pow2(f));
  }

  lemma HighPartSign(B: int, m: int, n: int)
    requires B > 0 && m > 0
    ensures (m * n) / B < 0 <==> n < 0
  {
    if n < 0 {
      MulStrict(n, 0, m);
      DivMod(m * n, B);
      if (m * n) / B >= 0 {
        MulMono(0, (m * n) / B, B);
      }
    } else {
      MulNonneg(m, n);
      DivNonneg(m * n, B);
    }
  }

  /** The high part plus the numerator is the high part of the full magic product, and in range. */
  lemma BranchfreeHigh(W: nat, magic: int, n: int)
    requires W > 0 && FitsSigned(W, n) && FitsSigned(W, magic) && 0 < Pow2(W) + magic < Pow2(W)
    ensures (magic * n) / Pow2(W) + n == ((Pow2(W) + magic) * n) / Pow2(W)
    ensures FitsSigned(W, ((Pow2(W) + magic) * n) / Pow2(W))
    ensures ((Pow2(W) + magic) * n) / Pow2(W) < 0 <==> n < 0
  {
    hide Pow2;
    TopPower(W);
    AddBack(Pow2(W), magic, n);
    HighPartFits(Pow2(W - 1), Pow2(W) + magic, n);
    HighPartSign(Pow2(W), Pow2(W) + magic, n);
  }

  lemma AddBack(B: int, magic: int, n: int)
    requires B > 0
    ensures (magic * n) / B + n == ((B + magic) * n) / B
  {
    assert (B + magic) * n == magic * n + n * B;
    ModAddMultiple(magic * n, n, B);
  }

  /** The branch-free quotient before the sign is applied. */
  lemma BranchfreeQuotient(W: nat, f: nat, a: nat, magic: int, n: int)
    requires W >= 2 && FitsSigned(W, n) && FitsSigned(W, magic)
    requires Between(W, f, a) && LargeMagic(W, f, a, Pow2(W) + magic)
    ensures var high := ToSigned(W, Wrap(W, (magic * n) / Pow2(W) + n));
            RoundedShift(W, high, Wrap(W, Pow2(f) - 0), f) == TowardZero(n, a)
  {
    hide Pow2, Wrap, ToSigned, RoundedShift;
    BranchfreeHigh(W, magic, n);
    var z := ((Pow2(W) + magic) * n) / Pow2(W);
    SignedWrap(W, z);
    BranchfreeStep(W, f, z);
    LargeQuotient(W, f, a, Pow2(W) + magic, n);
  }

  lemma LargeBranchfreeDo(W: nat, f: nat, d: int, n: int, denom: Divider)
    requires IsWidth(W) && FitsSigned(W, n) && ValidSigned(W, denom) && d != 0 && denom.magic != 0
    requires !(n == 0 - Pow2(W - 1) && d == -1)
    requires f < W && Between(W, f, Abs(d)) && LargeDivider(W, f, d, true, denom)
    ensures BranchfreeDo(W, n, denom) == TruncDiv(n, d)
  {
    hide Pow2, Wrap, And, SignMask, MulHighSignedWord, ToSigned, XorSub, TruncDiv, RoundedShift, TowardZero, Between, LargeMagic;
    MoreFields(W, f, true, d < 0);
    MulHighSignedWordExact(W, denom.magic, n);
    BranchfreeQuotient(W, f, Abs(d), denom.magic, n);
    SignApplied(W, n, d, if d < 0 then -1 else 0);
  }

  // ---------- main results ----------

  lemma GeneratedIsValid(W: nat, d: int, branchfree: bool)
    requires IsWidth(W) && FitsSigned(W, d) && d != 0
    ensures InternalGen(W, d, branchfree).Ok? && ValidSigned(W, InternalGen(W, d, branchfree).value)
    ensures InternalGen(W, d, branchfree).value.magic == 0 <==> Abs(d) == Pow2(FloorLog2(Abs(d)))
  {
    hide Pow2, InternalGen, FloorLog2;
    TopPower(W);
    GenShape(W, d, branchfree);
  }

  /** Generating a divider for d and dividing with it truncates toward zero, for every pair but MIN / -1. */
  lemma DoIsTruncatedDivision(W: nat, d: int, n: int)
    requires IsWidth(W) && FitsSigned(W, d) && d != 0 && FitsSigned(W, n)
    requires !(n == 0 - Pow2(W - 1) && d == -1)
    ensures Gen(W, d).Ok? && ValidSigned(W, Gen(W, d).value)
    ensures Do(W, n, Gen(W, d).value) == TruncDiv(n, d)
  {
    hide Pow2, InternalGen, FloorLog2, Do, TruncDiv, SmallDivider, LargeDivider, Between;
    GeneratedIsValid(W, d, false);
    GenShape(W, d, false);
    var f, denom := FloorLog2(Abs(d)), Gen(W, d).value;
    if Abs(d) == Pow2(f) {
      ShiftDo(W, f, d, n, denom);
    } else if SmallDivider(W, f, d, denom) {
      SmallDo(W, f, d, n, denom);
    } else {
      LargeDo(W, f, d, n, denom);
    }
  }

  /** The branch-free form, whose magic number is not negated, gives the same answer. */
  lemma BranchfreeDoIsTruncatedDivision(W: nat, d: int, n: int)
    requires IsWidth(W) && FitsSigned(W, d) && d != 0 && FitsSigned(W, n)
    requires !(n == 0 - Pow2(W - 1) && d == -1)
    ensures BranchfreeGen(W, d).Ok? && ValidSigned(W, BranchfreeGen(W, d).value)
    ensures BranchfreeDo(W, n, BranchfreeGen(W, d).value) == TruncDiv(n, d)
  {
    hide Pow2, InternalGen, FloorLog2, BranchfreeDo, TruncDiv, LargeDivider, Between;
    GeneratedIsValid(W, d, true);
    GenShape(W, d, true);
    var f, denom := FloorLog2(Abs(d)), BranchfreeGen(W, d).value;
    if Abs(d) == Pow2(f) {
      ShiftBranchfreeDo(W, f, d, n, denom);
    } else {
      LargeBranchfreeDo(W, f, d, n, denom);
    }
  }

  /** MIN / -1 is the one pair whose quotient the result type cannot hold, so the only exception. */
  lemma DividesIffRepresentable(W: nat, d: int, n: int)
    requires IsWidth(W) && FitsSigned(W, d) && d != 0 && FitsSigned(W, n)
    ensures Gen(W, d).Ok? && ValidSigned(W, Gen(W, d).value)
    ensures Do(W, n, Gen(W, d).value) == TruncDiv(n, d) <==> !(n == 0 - Pow2(W - 1) && d == -1)
    ensures BranchfreeGen(W, d).Ok? && ValidSigned(W, BranchfreeGen(W, d).value)
    ensures BranchfreeDo(W, n, BranchfreeGen(W, d).value) == TruncDiv(n, d) <==> !(n == 0 - Pow2(W - 1) && d == -1)
  {
    hide Pow2, InternalGen, TruncDiv, Do, BranchfreeDo;
    GeneratedIsValid(W, d, false);
    GeneratedIsValid(W, d, true);
    if n == 0 - Pow2(W - 1) && d == -1 {
      MinOverMinusOne(W, n, d);
    } else {
      DoIsTruncatedDivision(W, d, n);
      BranchfreeDoIsTruncatedDivision(W, d, n);
    }
  }

  lemma MinOverMinusOne(W: nat, n: int, d: int)
    requires IsWidth(W) && FitsSigned(W, n) && n == 0 - Pow2(W - 1) && d == -1
    requires forall b :: InternalGen(W, d, b).Ok? && ValidSigned(W, InternalGen(W, d, b).value)
    ensures TruncDiv(n, d) == Pow2(W - 1)
    ensures Do(W, n, Gen(W, d).value) < Pow2(W - 1) && BranchfreeDo(W, n, BranchfreeGen(W, d).value) < Pow2(W - 1)
  {
    assert FloorLog2(1) == 0 && Pow2(0) == 1;
    hide Pow2, InternalGen, Do, BranchfreeDo, FloorLog2;
    GeneratedIsValid(W, d, false);
    ShiftPathFits(W, n, Gen(W, d).value);
    BranchfreeFits(W, n, BranchfreeGen(W, d).value);
  }

  lemma ShiftPathFits(W: nat, n: int, denom: Divider)
    requires IsWidth(W) && FitsSigned(W, n) && ValidSigned(W, denom) && denom.magic == 0
    ensures Do(W, n, denom) < Pow2(W - 1)
  {
    hide Pow2, XorSub, RoundedShift, MulHighSignedWord, And, Wrap, SignMask;
    TopPower(W);
  }

  lemma BranchfreeFits(W: nat, n: int, denom: Divider)
    requires IsWidth(W) && FitsSigned(W, n) && ValidSigned(W, denom)
    ensures BranchfreeDo(W, n, denom) < Pow2(W - 1)
  {
    hide Pow2, RoundedShift, MulHighSignedWord, And, Wrap, SignMask, Xor;
    TopPower(W);
  }

  // ---------- the divisor can be recovered ----------

  /** Division of Pow2(W + shift) by the positive magic number gives the magnitude, one too small. */
  lemma MagnitudeRecovered(W: nat, shift: nat, a: nat, m: nat)
    requires shift < W && 1 < a < Pow2(W) && Pow2(shift) < m < Pow2(W)
    requires 0 < m * a - Pow2(shift) * Pow2(W) <= m
    ensures Wrap(W, WideQuotient(W, Pow2(shift), 0, m).0 + 1) == a
  {
    hide Pow2, Wrap, WideQuotient;
    WideQuotientExact(W, Pow2(shift), 0, m);
    RecoverQuotient(Pow2(shift) * Pow2(W), m, a, m * a - Pow2(shift) * Pow2(W));
    WrapOfSmall(W, a);
  }

  lemma SmallMagnitude(W: nat, f: nat, a: nat, m: int)
    requires W >= 2 && Between(W, f, a) && SmallMagic(W, f, a, m)
    ensures Pow2(f - 1) < m && 0 < m * a - Pow2(f - 1) * Pow2(W) <= m
    ensures 1 < a < Pow2(W - 1)
  {
    HalfShift(W, f);
    assert Pow2(f) == 2 * Pow2(f - 1);
    hide Pow2;
  }

  lemma LargeMagnitude(W: nat, f: nat, a: nat, m: int)
    requires W >= 2 && Between(W, f, a) && LargeMagic(W, f, a, m)
    ensures Pow2(f) < m && 0 < m * a - Pow2(f) * Pow2(W) <= m
    ensures 1 < a < Pow2(W - 1)
  {
    hide Pow2;
    assert Pow2(f) * Pow2(W) == Pow2(W) * Pow2(f);
  }

  /** Recovery from either strategy, given the word of the positive magic number. */
  lemma RecoverFrom(W: nat, shift: nat, d: int, denom: Divider, m: nat)
    requires IsWidth(W) && ValidSigned(W, denom) && denom.magic != 0 && d != 0 && shift < W
    requires And(denom.more, W - 1) == shift && (And(denom.more, NEGATIVE_DIVISOR) != 0 <==> d < 0)
    requires 1 < Abs(d) < Pow2(W - 1) && Pow2(shift) < m < Pow2(W) && 0 < m * Abs(d) - Pow2(shift) * Pow2(W) <= m
    requires m == Wrap(W, if (if And(denom.more, ADD_MARKER) != 0 then denom.magic > 0 else denom.magic < 0)
                          then -denom.magic else denom.magic)
    ensures Recover(W, denom) == d
  {
    hide Pow2, Wrap, And, WideQuotient, Shl, ToSigned;
    TopPower(W);
    ShlOne(W, shift);
    MagnitudeRecovered(W, shift, Abs(d), m);
    WrapOfSmall(W, Abs(d));
    SignedWrap(W, Abs(d));
  }

  lemma SmallRecover(W: nat, f: nat, d: int, denom: Divider)
    requires IsWidth(W) && ValidSigned(W, denom) && d != 0 && f < W && Between(W, f, Abs(d)) && SmallDivider(W, f, d, denom)
    ensures Recover(W, denom) == d
  {
    hide Pow2, Wrap, And, Recover, SignMask;
    TopPower(W);
    var m := if d < 0 then -denom.magic else denom.magic;
    MoreFields(W, f - 1, false, d < 0);
    SmallMagnitude(W, f, Abs(d), m);
    WrapOfSmall(W, m);
    RecoverFrom(W, f - 1, d, denom, m);
  }

  lemma LargeRecover(W: nat, f: nat, d: int, branchfree: bool, denom: Divider)
    requires IsWidth(W) && ValidSigned(W, denom) && denom.magic != 0 && d != 0 && f < W
    requires Between(W, f, Abs(d)) && LargeDivider(W, f, d, branchfree, denom)
    ensures Recover(W, denom) == d
  {
    hide Pow2, Wrap, And, Recover, SignMask;
    TopPower(W);
    var c := if d < 0 && !branchfree then -denom.magic else denom.magic;
    MoreFields(W, f, true, d < 0);
    LargeMagnitude(W, f, Abs(d), Pow2(W) + c);
    WrapShifted(W, c, 1);
    WrapOfSmall(W, Pow2(W) + c);
    RecoverFrom(W, f, d, denom, Pow2(W) + c);
  }

  lemma ShiftRecover(W: nat, f: nat, d: int, denom: Divider)
    requires IsWidth(W) && FitsSigned(W, d) && d != 0 && f < W && Abs(d) == Pow2(f)
    requires denom == Divider(0, f + SignBit(d < 0)) && ValidSigned(W, denom)
    ensures Recover(W, denom) == d
  {
    hide Pow2, Wrap, And, Shl, ToSigned, SignMask;
    MoreFields(W, f, false, d < 0);
    ShlOne(W, f);
    SignedWrap(W, d);
    TopPower(W);
    WrapOfSmall(W, Abs(d));
  }

  /** Recovering from a generated divider, of either strategy, returns the divisor. */
  lemma RecoverInvertsGen(W: nat, d: int, branchfree: bool)
    requires IsWidth(W) && FitsSigned(W, d) && d != 0
    ensures InternalGen(W, d, branchfree).Ok? && ValidSigned(W, InternalGen(W, d, branchfree).value)
    ensures Recover(W, InternalGen(W, d, branchfree).value) == d
  {
    hide Pow2, InternalGen, FloorLog2, Recover, SmallDivider, LargeDivider, Between;
    GeneratedIsValid(W, d, branchfree);
    GenShape(W, d, branchfree);
    var f, denom := FloorLog2(Abs(d)), InternalGen(W, d, branchfree).value;
    if Abs(d) == Pow2(f) {
      ShiftRecover(W, f, d, denom);
    } else if !branchfree && SmallDivider(W, f, d, denom) {
      SmallRecover(W, f, d, denom);
    } else {
      LargeRecover(W, f, d, branchfree, denom);
    }
  }

  /** divider::operator== on signed dividers holds exactly when the divisors are equal. */
  lemma EqualDividersIffEqualDivisors(W: nat, d1: int, d2: int, branchfree: bool)
    requires IsWidth(W) && FitsSigned(W, d1) && FitsSigned(W, d2) && d1 != 0 && d2 != 0
    ensures InternalGen(W, d1, branchfree) == InternalGen(W, d2, branchfree) <==> d1 == d2
  {
    hide *;
    RecoverInvertsGen(W, d1, branchfree);
    RecoverInvertsGen(W, d2, branchfree);
  }

  // ---------- the 64-bit code with its loops ----------

  /** libdivide_internal_s64_gen with its counting and dividing loops computes InternalGen. */
  method ComputeGen64(d: int, branchfree: bool) returns (r: Outcome<Divider>)
    requires FitsSigned(64, d)
    ensures r == InternalGen(64, d, branchfree)
  {
    hide Pow2, Wrap, And, Or, LeadingZeros, DoubledMagic, WideQuotient, FloorLog2, ToSigned, AbsoluteValue;
    if d == 0 {
      return Aborted;
    }
    var absD := AbsoluteValue(64, d);
    AbsIs(64, d);
    var zeros := CountLeadingZerosDouble(32, absD);
    var f: int := 63 - zeros;
    if And(absD, absD - 1) == 0 {
      return Ok(Divider(0, Or(f, if d < 0 then NEGATIVE_DIVISOR else 0)));
    }
    LogOfNonPower(64, absD);
    var proposed, rem := WideDivide64(PowerBelow(f, absD), 0, absD);
    var e := absD - rem;
    var more: nat;
    if !branchfree && e < Pow2(f) {
      more := f - 1;
    } else {
      var twice, twiceRem := Wrap(64, proposed + proposed), Wrap(64, rem + rem);
      ghost var before := proposed;
      proposed := twice;
      if twiceRem >= absD || twiceRem < rem {
        proposed := Wrap(64, proposed + 1);
      }
      DoubledMagicIs(64, absD, before, rem, proposed);
      more := Or(f, ADD_MARKER);
    }
    var magic := ToSigned(64, Wrap(64, 1 + proposed));
    if d < 0 {
      more := Or(more, NEGATIVE_DIVISOR);
      if !branchfree {
        magic := -magic;
      }
    }
    return Ok(Divider(magic, more));
  }

  /** 1 << (f - 1), a word below the divisor. */
  function PowerBelow(f: int, absD: nat): (p: nat)
    requires f >= 1 && Pow2(f) < absD
    ensures p == Pow2(f - 1) && p < absD
  {
    TopPower(f);
    Pow2(f - 1)
  }

  /** libdivide_s64_recover, which serves both strategies, with its wide division. */
  method ComputeRecover64(denom: Divider) returns (d: int)
    requires ValidSigned(64, denom)
    ensures d == Recover(64, denom)
  {
    hide Pow2, Wrap, And, Shl, WideQuotient, ToSigned;
    MaskOf(64, denom.more);
    var shift := And(denom.more, 63);
    var negative := And(denom.more, NEGATIVE_DIVISOR) != 0;
    if denom.magic == 0 {
      var absD: int := Shl(64, 1, shift);
      if negative {
        absD := Wrap(64, 0 - absD);
      }
      return ToSigned(64, absD);
    }
    var negated := if And(denom.more, ADD_MARKER) != 0 then denom.magic > 0 else denom.magic < 0;
    var x := if negated then -denom.magic else denom.magic;
    NonzeroWord(64, x);
    var hi := Shl(64, 1, shift);
    var q, rem := WideDivide64(hi, 0, Wrap(64, x));
    d := ToSigned(64, Wrap(64, q + 1));
    if negative {
      d := -d;
    }
  }
}

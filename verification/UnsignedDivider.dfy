/** libdivide's unsigned dividers: a magic number and a shift replace division by d.
    W is the width of the divided words, 32 or 64. */
module UnsignedDivider {
  import opened Words
  import opened Bits
  import opened WideArithmetic
  import opened DoubleDivision
  import opened MagicNumbers

  // ---------- generators ----------

  function InternalGen(W: nat, d: nat, branchfree: bool): (r: Outcome<Divider>)
    requires IsWidth(W) && d < Pow2(W)
  {
    if d == 0 then Aborted
    else
      var f := W - 1 - LeadingZeros(W, d);
      if And(d, d - 1) == 0 then
        Ok(Divider(0, Wrap(8, f - (if branchfree then 1 else 0))))
      else
        var (proposed, rem) := WideQuotient(W, Pow2(f), 0, d);
        var e := d - rem;
        if !branchfree && e < Pow2(f) then
          Ok(Divider(Wrap(W, 1 + proposed), f))
        else
          Ok(Divider(Wrap(W, 1 + DoubledMagic(W, d, proposed, rem)), Or(f, ADD_MARKER)))
  }

  function Gen(W: nat, d: nat): (r: Outcome<Divider>)
    requires IsWidth(W) && d < Pow2(W)
  {
    InternalGen(W, d, false)
  }

  function BranchfreeGen(W: nat, d: nat): (r: Outcome<Divider>)
    requires IsWidth(W) && d < Pow2(W)
  {
    if d == 1 then Aborted
    else
      match InternalGen(W, d, true)
      case Aborted => Aborted
      case Ok(tmp) => Ok(Divider(tmp.magic, And(tmp.more, W - 1)))
  }

  // ---------- division ----------

  predicate ValidUnsigned(W: nat, denom: Divider) {
    0 <= denom.magic < Pow2(W) && denom.more < 256
  }

  /** The overflow-free average of n and q. */
  function Average(W: nat, n: nat, q: nat): (t: nat) {
    Wrap(W, Shr(Wrap(W, n - q), 1) + q)
  }

  function Do(W: nat, numer: nat, denom: Divider): (q: nat)
    requires IsWidth(W) && numer < Pow2(W) && ValidUnsigned(W, denom)
  {
    if denom.magic == 0 then Shr(numer, denom.more)
    else
      var q := MulHighWord(W, denom.magic, numer);
      if And(denom.more, ADD_MARKER) != 0 then
        Shr(Average(W, numer, q), And(denom.more, W - 1))
      else
        Shr(q, denom.more)
  }

  function BranchfreeDo(W: nat, numer: nat, denom: Divider): (q: nat)
    requires IsWidth(W) && numer < Pow2(W) && ValidUnsigned(W, denom)
  {
    var q := MulHighWord(W, denom.magic, numer);
    Shr(Average(W, numer, q), denom.more)
  }

  // ---------- recovery of the divisor ----------

  /** Doubles the quotient of Pow2(W + shift) by the (W+1)-bit magic number. */
  function RecoverLarge(W: nat, magic: nat, shift: nat): (d: nat)
    requires 0 < magic < Pow2(W)
  {
    var halfN := Pow2(W + shift);
    var full := Or(Pow2(W), magic);
    var halfQ := Wrap(W, halfN / full);
    var rem := halfN % full;
    Wrap(W, Wrap(W, halfQ + halfQ + (if 2 * rem >= full then 1 else 0)) + 1)
  }

  function Recover(W: nat, denom: Divider): (d: nat)
    requires IsWidth(W) && ValidUnsigned(W, denom)
  {
    var shift := And(denom.more, W - 1);
    if denom.magic == 0 then Shl(W, 1, shift)
    else if And(denom.more, ADD_MARKER) == 0 then
      Wrap(W, 1 + WideQuotient(W, Shl(W, 1, shift), 0, denom.magic).0)
    else RecoverLarge(W, denom.magic, shift)
  }

  function BranchfreeRecover(W: nat, denom: Divider): (d: nat)
    requires IsWidth(W) && ValidUnsigned(W, denom)
  {
    var shift := And(denom.more, W - 1);
    if denom.magic == 0 then Shl(W, 1, shift + 1)
    else RecoverLarge(W, denom.magic, shift)
  }

  // ---------- what the generator produces ----------

  /** d lies strictly between two powers of two, the lower being Pow2(f). */
  ghost predicate Between(W: nat, f: nat, d: nat) {
    f < W && Pow2(f) < d < 2 * Pow2(f) && 2 * Pow2(f) <= Pow2(W) && d < Pow2(W)
  }

  /** m*d exceeds B*scale by no more than scale, which every numerator below B tolerates. */
  ghost predicate Magic(B: int, scale: int, d: int, m: int) {
    0 < m * d - B * scale <= scale
  }

  /** The two shapes of a generated divider for a divisor that is not a power of two. */
  ghost predicate SmallDivider(W: nat, f: nat, d: nat, denom: Divider) {
    && 0 < denom.magic < Pow2(W) && denom.more == f && Pow2(W) <= 2 * denom.magic
    && Magic(Pow2(W), Pow2(f), d, denom.magic)
  }

  ghost predicate LargeDivider(W: nat, f: nat, d: nat, denom: Divider) {
    && 0 < denom.magic < Pow2(W) && denom.more == f + 64
    && Magic(Pow2(W), 2 * Pow2(f), d, Pow2(W) + denom.magic)
    && (Pow2(W) + denom.magic) * d - Pow2(W) * (2 * Pow2(f)) <= d
  }

  /** Either d is a power of two or it is strictly between two. */
  lemma Classify(W: nat, d: nat)
    requires 0 < d < Pow2(W)
    ensures W - 1 - LeadingZeros(W, d) == FloorLog2(d) < W
    ensures if And(d, d - 1) == 0 then d == Pow2(FloorLog2(d)) else Between(W, FloorLog2(d), d)
  {
    PowerOfTwoTest(d);
    FloorLog2Below(d, W);
    Pow2Mono(FloorLog2(d), W);
  }

  lemma SmallShape(W: nat, f: nat, d: nat, pm: nat, rem: nat)
    requires Between(W, f, d) && Pow2(f) * Pow2(W) == pm * d + rem && rem < d && d - rem < Pow2(f)
    ensures SmallDivider(W, f, d, Divider(Wrap(W, 1 + pm), f))
  {
    hide Pow2, Wrap;
    SmallMagicRange(Pow2(W), Pow2(f), d, pm, rem);
    WrapOfSmall(W, 1 + pm);
  }

  lemma LargeShape(W: nat, f: nat, d: nat, pm: nat, rem: nat)
    requires Between(W, f, d) && Pow2(f) * Pow2(W) == pm * d + rem && rem < d
    ensures LargeDivider(W, f, d, Divider(Wrap(W, 1 + DoubledMagic(W, d, pm, rem)), f + 64))
  {
    hide Pow2, Wrap, DoubledMagic;
    DoubledMagicExact(W, d, Pow2(f) * Pow2(W), pm, rem);
    var c := if rem + rem >= d then 1 else 0;
    LargeShapeFrom(W, f, d, pm + pm + c, rem + rem - c * d);
  }

  lemma LargeShapeFrom(W: nat, f: nat, d: nat, pm2: int, rem2: int)
    requires Between(W, f, d) && 2 * (Pow2(f) * Pow2(W)) == pm2 * d + rem2 && 0 <= rem2 < d
    ensures LargeDivider(W, f, d, Divider(Wrap(W, pm2 + 1), f + 64))
  {
    hide Pow2, Wrap;
    var B := Pow2(W);
    LargeMagicRange(B, Pow2(f), d, pm2, rem2);
    WrapShifted(W, pm2 + 1 - B, 1);
    WrapOfSmall(W, pm2 + 1 - B);
    LargeMagicHolds(B, Pow2(f), d, pm2, rem2);
  }

  lemma LargeMagicHolds(B: int, F: int, d: int, pm2: int, rem2: int)
    requires 2 * (F * B) == pm2 * d + rem2 && 0 <= rem2 < d < 2 * F
    ensures Magic(B, 2 * F, d, pm2 + 1) && (pm2 + 1) * d - B * (2 * F) <= d
  {
    assert (pm2 + 1) * d == pm2 * d + d;
    assert B * (2 * F) == 2 * (F * B);
  }

  lemma NonPowerShape(W: nat, d: nat, branchfree: bool, f: nat)
    requires IsWidth(W) && 0 < d < Pow2(W) && And(d, d - 1) != 0 && Between(W, f, d) && f == W - 1 - LeadingZeros(W, d)
    ensures var r := InternalGen(W, d, branchfree);
            r.Ok? && ((!branchfree && SmallDivider(W, f, d, r.value)) || LargeDivider(W, f, d, r.value))
  {
    hide Pow2, Wrap, And, Or, LeadingZeros, DoubledMagic, WideQuotient, SmallDivider, LargeDivider;
    WideQuotientExact(W, Pow2(f), 0, d);
    var (pm, rem) := WideQuotient(W, Pow2(f), 0, d);
    ShiftBits(W, f);
    if !branchfree && d - rem < Pow2(f) {
      SmallShape(W, f, d, pm, rem);
    } else {
      LargeShape(W, f, d, pm, rem);
    }
  }

  /** The generator yields a pure shift exactly for powers of two, and otherwise a sound magic number. */
  lemma GenShape(W: nat, d: nat, branchfree: bool)
    requires IsWidth(W) && 0 < d < Pow2(W)
    ensures var f := FloorLog2(d); var r := InternalGen(W, d, branchfree);
            && f < W && r.Ok?
            && (d == Pow2(f) ==> r.value == Divider(0, Wrap(8, f - (if branchfree then 1 else 0))))
            && (d != Pow2(f) ==> Between(W, f, d))
            && (d != Pow2(f) ==> (!branchfree && SmallDivider(W, f, d, r.value)) || LargeDivider(W, f, d, r.value))
  {
    hide Pow2, Wrap, And, Or, LeadingZeros, DoubledMagic, WideQuotient, SmallDivider, LargeDivider, FloorLog2;
    Classify(W, d);
    if And(d, d - 1) != 0 {
      BetweenIsNoPower(W, d);
      NonPowerShape(W, d, branchfree, FloorLog2(d));
    }
  }

  /** The generators refuse zero, the branch-free one also one, and nothing else. */
  lemma AbortsIff(W: nat, d: nat)
    requires IsWidth(W) && d < Pow2(W)
    ensures Gen(W, d) == Aborted <==> d == 0
    ensures BranchfreeGen(W, d) == Aborted <==> d <= 1
  {
    if d > 0 {
      hide InternalGen, Pow2;
      GenShape(W, d, false);
      GenShape(W, d, true);
    }
  }

  lemma BetweenIsNoPower(W: nat, d: nat)
    requires d > 0 && Between(W, FloorLog2(d), d)
    ensures d != Pow2(FloorLog2(d))
  {
  }

  // ---------- division is exact ----------

  lemma SmallDivides(W: nat, f: nat, d: nat, m: nat, n: nat)
    requires Between(W, f, d) && n < Pow2(W) && Magic(Pow2(W), Pow2(f), d, m)
    ensures ((m * n) / Pow2(W)) / Pow2(f) == n / d
  {
    hide Pow2;
    DivDiv(m * n, Pow2(W), Pow2(f));
    MagicDivides(Pow2(W), Pow2(f), d, m, n);
  }

  lemma MagicDivides(B: int, scale: int, d: int, m: int, n: int)
    requires B > 0 && scale > 0 && d > 0 && 0 <= m && 0 <= n < B && Magic(B, scale, d, m)
    ensures B * scale > 0 && (m * n) / (B * scale) == n / d
  {
    MulStrict(0, B, scale);
    var e := m * d - B * scale;
    MulMono(e, scale, n);
    MulStrict(n, B, scale);
    MagicQuotient(B * scale, m, d, e, n);
  }

  /** (n + floor(m*n/B)) / 2 / F is the quotient by the (W+1)-bit magic number B + m. */
  lemma AverageIsLargeProduct(B: int, F: int, m: int, n: int)
    requires B > 0 && F > 0
    ensures B * (2 * F) > 0
    ensures ((n + (m * n) / B) / 2) / F == ((B + m) * n) / (B * (2 * F))
  {
    MulStrict(0, B, F);
    ModAddMultiple(m * n, n, B);
    assert m * n + n * B == (B + m) * n;
    DivDiv((B + m) * n, B, 2);
    DivDiv((B + m) * n, B * 2, F);
    assert (B * 2) * F == B * (2 * F);
  }

  lemma ShrOne(x: nat)
    ensures Shr(x, 1) == x / 2
  {
    assert Pow2(1) == 2;
  }

  lemma HalfSum(n: nat, q: nat)
    requires q <= n
    ensures (n - q) / 2 + q == (n + q) / 2 <= n
  {
  }

  lemma AverageExact(W: nat, n: nat, q: nat)
    requires q <= n < Pow2(W)
    ensures Average(W, n, q) == (n + q) / 2
  {
    hide Pow2, Wrap, Shr;
    WrapOfSmall(W, n - q);
    ShrOne(n - q);
    HalfSum(n, q);
    WrapOfSmall(W, (n + q) / 2);
  }

  lemma LargeDivides(W: nat, f: nat, d: nat, m: nat, n: nat)
    requires IsWidth(W) && Between(W, f, d) && n < Pow2(W) && m < Pow2(W)
    requires Magic(Pow2(W), 2 * Pow2(f), d, Pow2(W) + m)
    ensures Shr(Average(W, n, MulHighWord(W, m, n)), f) == n / d
  {
    hide Pow2, Average, MulHighWord;
    MulHighWordExact(W, m, n);
    AverageExact(W, n, MulHighWord(W, m, n));
    AverageIsLargeProduct(Pow2(W), Pow2(f), m, n);
    MagicDivides(Pow2(W), 2 * Pow2(f), d, Pow2(W) + m, n);
  }

  lemma DoPower(W: nat, f: nat, n: nat, denom: Divider)
    requires IsWidth(W) && n < Pow2(W) && denom == Divider(0, f) && ValidUnsigned(W, denom)
    ensures Do(W, n, denom) == n / Pow2(f)
  {
    hide Pow2, And, Average, MulHighWord;
  }

  lemma DoSmall(W: nat, f: nat, d: nat, n: nat, denom: Divider)
    requires IsWidth(W) && n < Pow2(W) && ValidUnsigned(W, denom) && Between(W, f, d) && SmallDivider(W, f, d, denom)
    ensures Do(W, n, denom) == n / d
  {
    hide Pow2, And, Average, MulHighWord;
    ShiftBits(W, f);
    MulHighWordExact(W, denom.magic, n);
    SmallDivides(W, f, d, denom.magic, n);
  }

  lemma DoLarge(W: nat, f: nat, d: nat, n: nat, denom: Divider)
    requires IsWidth(W) && n < Pow2(W) && ValidUnsigned(W, denom) && Between(W, f, d) && LargeDivider(W, f, d, denom)
    ensures Do(W, n, denom) == n / d
  {
    hide Pow2, And, Average, MulHighWord, Shr;
    AddBits(W, f);
    LargeDivides(W, f, d, denom.magic, n);
  }

  lemma GeneratedIsValid(W: nat, d: nat)
    requires IsWidth(W) && 0 < d < Pow2(W)
    ensures Gen(W, d).Ok? && ValidUnsigned(W, Gen(W, d).value)
  {
    hide Pow2, InternalGen, FloorLog2, Wrap;
    GenShape(W, d, false);
    ByteShift(FloorLog2(d), W);
  }

  /** Generating a divider for d and dividing with it is floor division by d. */
  lemma DoIsDivision(W: nat, d: nat, n: nat)
    requires IsWidth(W) && 0 < d < Pow2(W) && n < Pow2(W)
    ensures Gen(W, d).Ok? && ValidUnsigned(W, Gen(W, d).value)
    ensures Do(W, n, Gen(W, d).value) == n / d
  {
    hide Pow2, Wrap, InternalGen, Do, Between, SmallDivider, LargeDivider, FloorLog2, ValidUnsigned;
    GeneratedIsValid(W, d);
    GenShape(W, d, false);
    var f, denom := FloorLog2(d), Gen(W, d).value;
    ByteShift(f, W);
    if d == Pow2(f) {
      DoPower(W, f, n, denom);
    } else if SmallDivider(W, f, d, denom) {
      DoSmall(W, f, d, n, denom);
    } else {
      DoLarge(W, f, d, n, denom);
    }
  }

  lemma ByteShift(f: nat, W: nat)
    requires IsWidth(W) && f < W
    ensures Wrap(8, f) == f && (f > 0 ==> Wrap(8, f - 1) == f - 1)
  {
    assert Pow2(8) == 256;
  }

  /** The branch-free form agrees for every divisor above one. */
  lemma BranchfreeDoIsDivision(W: nat, d: nat, n: nat)
    requires IsWidth(W) && 2 <= d < Pow2(W) && n < Pow2(W)
    ensures BranchfreeGen(W, d).Ok? && ValidUnsigned(W, BranchfreeGen(W, d).value)
    ensures BranchfreeDo(W, n, BranchfreeGen(W, d).value) == n / d
  {
    hide Pow2, Average, MulHighWord, BranchfreeGen, FloorLog2, Shr, Between, LargeDivider, Magic, IsWidth;
    BranchfreeShape(W, d);
    var f, denom := FloorLog2(d), BranchfreeGen(W, d).value;
    if d == Pow2(f) {
      BranchfreePower(W, f, n);
    } else {
      LargeFacts(W, f, d, denom.(more := f + 64));
      LargeDivides(W, f, d, denom.magic, n);
    }
  }

  lemma BranchfreePower(W: nat, f: nat, n: nat)
    requires IsWidth(W) && f > 0 && n < Pow2(W)
    ensures Shr(Average(W, n, MulHighWord(W, 0, n)), f - 1) == n / Pow2(f)
  {
    hide Pow2, Average, MulHighWord, Shr;
    MulHighWordExact(W, 0, n);
    AverageExact(W, n, 0);
    HalveThenShift(f, n);
  }

  lemma LargeFacts(W: nat, f: nat, d: nat, denom: Divider)
    requires LargeDivider(W, f, d, denom)
    ensures 0 < denom.magic < Pow2(W) && Magic(Pow2(W), 2 * Pow2(f), d, Pow2(W) + denom.magic)
    ensures (Pow2(W) + denom.magic) * d - Pow2(W) * (2 * Pow2(f)) <= d
  {
    hide Pow2, Magic;
  }

  lemma HalveThenShift(f: nat, n: nat)
    requires f > 0
    ensures Shr(n / 2, f - 1) == n / Pow2(f)
  {
    DivDiv(n, 2, Pow2(f - 1));
  }

  lemma LogPositive(d: nat)
    requires d >= 2
    ensures FloorLog2(d) > 0
  {
    assert Pow2(1) == 2;
  }

  lemma BranchfreeShape(W: nat, d: nat)
    requires IsWidth(W) && 2 <= d < Pow2(W)
    ensures var f := FloorLog2(d); var r := BranchfreeGen(W, d);
            && 0 < f < W && r.Ok? && ValidUnsigned(W, r.value)
            && (d == Pow2(f) ==> r.value == Divider(0, f - 1))
            && (d != Pow2(f) ==> Between(W, f, d) && r.value.more == f && LargeDivider(W, f, d, r.value.(more := f + 64)))
  {
    hide Pow2, Wrap, And, Or, InternalGen, FloorLog2, Between;
    GenShape(W, d, true);
    var f := FloorLog2(d);
    LogPositive(d);
    ByteShift(f, W);
    ShiftBits(W, f - 1);
    AddBits(W, f);
  }

  /** Zero magic marks the shift path, taken exactly for powers of two. */
  lemma MagicZeroIffPowerOfTwo(W: nat, d: nat, branchfree: bool)
    requires IsWidth(W) && 0 < d < Pow2(W)
    ensures InternalGen(W, d, branchfree).Ok?
    ensures InternalGen(W, d, branchfree).value.magic == 0 <==> exists k: nat :: d == Pow2(k)
  {
    hide InternalGen, Pow2;
    GenShape(W, d, branchfree);
    if k: nat :| d == Pow2(k) {
      PowerLog(d, k);
    }
  }

  lemma PowerLog(d: nat, k: nat)
    requires d == Pow2(k)
    ensures FloorLog2(d) == k
  {
    FloorLog2Unique(d, k);
  }

  // ---------- the divisor can be recovered ----------

  lemma SmallRecovers(W: nat, f: nat, d: nat, m: nat)
    requires Between(W, f, d) && 0 < m < Pow2(W) && Pow2(W) <= 2 * m && Magic(Pow2(W), Pow2(f), d, m)
    ensures Wrap(W, 1 + WideQuotient(W, Pow2(f), 0, m).0) == d
  {
    hide Pow2, Wrap, WideQuotient;
    NotPowerMagic(W, f, d, m);
    WideQuotientExact(W, Pow2(f), 0, m);
    assert Pow2(f) * Pow2(W) == Pow2(W) * Pow2(f);
    RecoverQuotient(Pow2(W) * Pow2(f), m, d, m * d - Pow2(W) * Pow2(f));
    WrapOfSmall(W, d);
  }

  /** The magic number exceeds the shifted one, so the wide division cannot overflow. */
  lemma NotPowerMagic(W: nat, f: nat, d: nat, m: nat)
    requires Between(W, f, d) && 0 < m && Pow2(W) <= 2 * m && Magic(Pow2(W), Pow2(f), d, m)
    ensures Pow2(f) < m
  {
    hide Pow2;
    MagicAbovePower(Pow2(W), Pow2(f), d, m);
  }

  lemma MagicAbovePower(B: int, F: int, d: int, m: int)
    requires F < d < 2 * F && 0 < m && 2 * F <= B && 0 < m * d - B * F
    ensures F < m
  {
    MulMono(d, 2 * F - 1, m);
    assert m * (2 * F - 1) == 2 * (m * F) - m;
    if m <= F {
      MulMono(2 * m, B, F);
    }
  }

  ghost predicate IsDivided(x: int, d: int, q: int, r: int) {
    x == q * d + r && 0 <= r < d
  }

  lemma RecoverLargeIs(W: nat, magic: nat, shift: nat, halfQ: nat, rem: nat)
    requires 0 < magic < Pow2(W) && halfQ < Pow2(W)
    requires IsDivided(Pow2(W + shift), Or(Pow2(W), magic), halfQ, rem)
    ensures RecoverLarge(W, magic, shift)
         == Wrap(W, Wrap(W, halfQ + halfQ + (if 2 * rem >= Or(Pow2(W), magic) then 1 else 0)) + 1)
  {
    hide Pow2, Or, Wrap;
    DivUnique(Pow2(W + shift), Or(Pow2(W), magic), halfQ, rem);
    WrapOfSmall(W, halfQ);
  }

  lemma OrTop(W: nat, m: nat)
    requires m < Pow2(W)
    ensures Or(Pow2(W), m) == Pow2(W) + m
  {
    hide Or, Pow2;
    OrDisjoint(m, 1, W);
    OrComm(m, 1 * Pow2(W));
  }

  lemma LargeRecovers(W: nat, f: nat, d: nat, m: nat)
    requires Between(W, f, d) && 0 < m < Pow2(W)
    requires Magic(Pow2(W), 2 * Pow2(f), d, Pow2(W) + m)
    requires (Pow2(W) + m) * d - Pow2(W) * (2 * Pow2(f)) <= d
    ensures RecoverLarge(W, m, f) == d
  {
    hide Pow2, Wrap, Or, RecoverLarge;
    OrTop(W, m);
    Pow2Add(W, f);
    var halfQ, rem := LargeRecoversValue(Pow2(W), Pow2(f), Pow2(W) + m, d);
    RecoversFrom(W, m, f, d, halfQ, rem);
  }

  lemma RecoversFrom(W: nat, m: nat, f: nat, d: nat, halfQ: nat, rem: nat)
    requires 0 < m < Pow2(W) && halfQ < Pow2(W) && 0 < d < Pow2(W)
    requires IsDivided(Pow2(W + f), Or(Pow2(W), m), halfQ, rem)
    requires halfQ + halfQ + (if 2 * rem >= Or(Pow2(W), m) then 1 else 0) == d - 1
    ensures RecoverLarge(W, m, f) == d
  {
    hide Pow2, Wrap, Or, RecoverLarge, IsDivided;
    RecoverLargeIs(W, m, f, halfQ, rem);
    WrapOfSmall(W, d - 1);
    WrapOfSmall(W, d);
  }

  lemma LargeRecoversValue(B: int, F: int, full: int, d: int) returns (halfQ: nat, rem: nat)
    requires 0 < F <= B && B < full && 0 < d < B && 0 < full * d - B * (2 * F) <= d
    ensures halfQ < B && B * F == halfQ * full + rem && rem < full
    ensures halfQ + halfQ + (if 2 * rem >= full then 1 else 0) == d - 1
  {
    MulNonneg(B, F);
    DivNonneg(B * F, full);
    DivMod(B * F, full);
    halfQ, rem := (B * F) / full, (B * F) % full;
    assert halfQ < B by {
      MulStrict(F, full, B);
      DivBelow(B * F, full, B);
    }
    assert (B * (2 * F)) / full == d - 1 by {
      RecoverQuotient(B * (2 * F), full, d, full * d - B * (2 * F));
    }
    DoubledQuotient(B, F, full, halfQ, rem);
  }

  lemma DoubledQuotient(B: int, F: int, full: int, halfQ: int, rem: int)
    requires full > 0 && halfQ == (B * F) / full && rem == (B * F) % full
    ensures halfQ + halfQ + (if 2 * rem >= full then 1 else 0) == (B * (2 * F)) / full
  {
    DivMod(B * F, full);
    var c := if 2 * rem >= full then 1 else 0;
    assert B * (2 * F) == 2 * (B * F);
    assert (halfQ + halfQ + c) * full == 2 * (halfQ * full) + c * full;
    DivUnique(B * (2 * F), full, halfQ + halfQ + c, 2 * rem - c * full);
  }

  lemma RecoverPower(W: nat, f: nat, denom: Divider)
    requires IsWidth(W) && f < W && denom == Divider(0, f) && ValidUnsigned(W, denom)
    ensures Recover(W, denom) == Pow2(f)
  {
    hide Pow2, Wrap, And, RecoverLarge, WideQuotient, Shl;
    ShiftBits(W, f);
    ShlOne(W, f);
  }

  lemma RecoverSmall(W: nat, f: nat, d: nat, denom: Divider)
    requires IsWidth(W) && ValidUnsigned(W, denom) && Between(W, f, d) && SmallDivider(W, f, d, denom)
    ensures Recover(W, denom) == d
  {
    hide Pow2, Wrap, And, RecoverLarge, WideQuotient, Shl;
    ShiftBits(W, f);
    ShlOne(W, f);
    SmallRecovers(W, f, d, denom.magic);
  }

  lemma RecoverFromLarge(W: nat, f: nat, d: nat, denom: Divider)
    requires IsWidth(W) && ValidUnsigned(W, denom) && Between(W, f, d) && LargeDivider(W, f, d, denom)
    ensures Recover(W, denom) == d
  {
    hide Pow2, Wrap, And, RecoverLarge, WideQuotient, Shl;
    AddBits(W, f);
    LargeRecovers(W, f, d, denom.magic);
  }

  /** Recovering from a generated divider returns the divisor. */
  lemma RecoverInvertsGen(W: nat, d: nat)
    requires IsWidth(W) && 0 < d < Pow2(W)
    ensures Gen(W, d).Ok? && ValidUnsigned(W, Gen(W, d).value)
    ensures Recover(W, Gen(W, d).value) == d
  {
    hide Pow2, Wrap, InternalGen, Recover, Between, SmallDivider, LargeDivider, FloorLog2, ValidUnsigned;
    GeneratedIsValid(W, d);
    GenShape(W, d, false);
    var f, denom := FloorLog2(d), Gen(W, d).value;
    ByteShift(f, W);
    if d == Pow2(f) {
      RecoverPower(W, f, denom);
    } else if SmallDivider(W, f, d, denom) {
      RecoverSmall(W, f, d, denom);
    } else {
      RecoverFromLarge(W, f, d, denom);
    }
  }

  lemma BranchfreeRecoverInvertsGen(W: nat, d: nat)
    requires IsWidth(W) && 2 <= d < Pow2(W)
    ensures BranchfreeGen(W, d).Ok? && ValidUnsigned(W, BranchfreeGen(W, d).value)
    ensures BranchfreeRecover(W, BranchfreeGen(W, d).value) == d
  {
    hide Pow2, Wrap, And, BranchfreeGen, RecoverLarge, Shl, FloorLog2, Between, LargeDivider, Magic, IsWidth;
    BranchfreeShape(W, d);
    var f, denom := FloorLog2(d), BranchfreeGen(W, d).value;
    if d == Pow2(f) {
      ShiftBits(W, f - 1);
      ShlOne(W, f);
    } else {
      ShiftBits(W, f);
      LargeFacts(W, f, d, denom.(more := f + 64));
      LargeRecovers(W, f, d, denom.magic);
    }
  }

  /** divider::operator== compares both fields, and so compares the divisors. */
  lemma EqualDividersIffEqualDivisors(W: nat, d1: nat, d2: nat)
    requires IsWidth(W) && 0 < d1 < Pow2(W) && 0 < d2 < Pow2(W)
    ensures Gen(W, d1) == Gen(W, d2) <==> d1 == d2
    ensures d1 >= 2 && d2 >= 2 ==> (BranchfreeGen(W, d1) == BranchfreeGen(W, d2) <==> d1 == d2)
  {
    RecoverInvertsGen(W, d1);
    RecoverInvertsGen(W, d2);
    if d1 >= 2 && d2 >= 2 {
      BranchfreeRecoverInvertsGen(W, d1);
      BranchfreeRecoverInvertsGen(W, d2);
    }
    hide *;
  }

  // ---------- the 64-bit code on the portable wide divisions ----------

  /** libdivide_internal_u64_gen with its counting and dividing loops computes InternalGen. */
  method ComputeGen64(d: nat, branchfree: bool) returns (r: Outcome<Divider>)
    requires d < Pow2(64)
    ensures r == InternalGen(64, d, branchfree)
  {
    hide Pow2, Wrap, And, Or, LeadingZeros, DoubledMagic, WideQuotient, FloorLog2;
    if d == 0 {
      return Aborted;
    }
    var zeros := CountLeadingZerosDouble(32, d);
    var f: int := 63 - zeros;
    if And(d, d - 1) == 0 {
      return Ok(Divider(0, Wrap(8, f - (if branchfree then 1 else 0))));
    }
    Classify(64, d);
    var proposed, rem := WideDivide64(Pow2(f), 0, d);
    var e := d - rem;
    var more;
    if !branchfree && e < Pow2(f) {
      more := f;
    } else {
      var twice, twiceRem := Wrap(64, proposed + proposed), Wrap(64, rem + rem);
      ghost var before := proposed;
      proposed := twice;
      if twiceRem >= d || twiceRem < rem {
        proposed := Wrap(64, proposed + 1);
      }
      DoubledMagicIs(64, d, before, rem, proposed);
      more := Or(f, ADD_MARKER);
    }
    return Ok(Divider(Wrap(64, 1 + proposed), more));
  }

  /** Doubling a pair below twice the word size with a carry. */
  lemma DoublePair(W: nat, hi: nat, lo: nat)
    requires W >= 2 && hi <= 1 && lo < Pow2(W)
    ensures var dlo := Wrap(W, lo + lo); var dhi := Wrap(W, hi + hi + (if dlo < lo then 1 else 0));
            Pair(W, dhi, dlo) == 2 * Pair(W, hi, lo)
  {
    hide Pow2, Wrap;
    FourFits(W);
    if lo + lo >= Pow2(W) {
      WrapShifted(W, lo + lo - Pow2(W), 1);
      WrapOfSmall(W, lo + lo - Pow2(W));
      WrapOfSmall(W, hi + hi + 1);
      assert (hi + hi + 1) * Pow2(W) == 2 * (hi * Pow2(W)) + Pow2(W);
    } else {
      WrapOfSmall(W, lo + lo);
      WrapOfSmall(W, hi + hi);
      assert (hi + hi) * Pow2(W) == 2 * (hi * Pow2(W));
    }
  }

  lemma FourFits(W: nat)
    requires W >= 2
    ensures Pow2(W) >= 4
  {
    Pow2Mono(2, W);
    assert Pow2(2) == 4;
  }

  /** The operands of the 65-bit case as pairs: the quotient always fits one word. */
  lemma LargeOperands(W: nat, shift: nat, magic: nat)
    requires shift < W && magic < Pow2(W)
    ensures Pair(W, Pow2(shift), 0) == Pow2(W + shift) && Pair(W, 1, magic) == Or(Pow2(W), magic)
    ensures Pair(W, Pow2(shift), 0) < Pair(W, 1, magic) * Pow2(W)
  {
    hide Pow2, Or;
    Pow2Add(W, shift);
    Pow2Mono(shift, W);
    OrDisjoint(magic, 1, W);
    OrComm(magic, 1 * Pow2(W));
    MulStrict(Pow2(shift), Pow2(W) + magic, Pow2(W));
  }

  lemma RemainderHigh(W: nat, hi: nat, lo: nat, magic: nat)
    requires Pair(W, hi, lo) < Pair(W, 1, magic) && magic < Pow2(W)
    ensures hi <= 1
  {
    hide Pow2;
    if hi >= 2 {
      MulMono(2, hi, Pow2(W));
    }
  }

  /** The carried comparison decides whether twice the remainder reaches the divisor. */
  lemma DoubledRemainder(W: nat, rHi: nat, rLo: nat, magic: nat)
    requires W >= 2 && rLo < Pow2(W) && magic < Pow2(W) && Pair(W, rHi, rLo) < Pair(W, 1, magic)
    ensures var drLo := Wrap(W, rLo + rLo);
            var drHi := Wrap(W, rHi + rHi + (if drLo < rLo then 1 else 0));
            (drHi > 1 || (drHi == 1 && drLo >= magic)) <==> 2 * Pair(W, rHi, rLo) >= Pair(W, 1, magic)
  {
    hide Pow2, Wrap, Pair;
    RemainderHigh(W, rHi, rLo, magic);
    DoublePair(W, rHi, rLo);
    var drLo := Wrap(W, rLo + rLo);
    ComparePair(W, Wrap(W, rHi + rHi + (if drLo < rLo then 1 else 0)), drLo, 1, magic);
  }

  lemma RecoverLargeFromPairs(W: nat, magic: nat, shift: nat, halfQ: nat, rHi: nat, rLo: nat)
    requires 0 < magic < Pow2(W) && shift < W && halfQ < Pow2(W)
    requires Pair(W, Pow2(shift), 0) == halfQ * Pair(W, 1, magic) + Pair(W, rHi, rLo)
    requires Pair(W, rHi, rLo) < Pair(W, 1, magic)
    ensures RecoverLarge(W, magic, shift)
         == Wrap(W, Wrap(W, halfQ + halfQ + (if 2 * Pair(W, rHi, rLo) >= Pair(W, 1, magic) then 1 else 0)) + 1)
  {
    hide Pow2, Wrap, Pair, Or, RecoverLarge;
    LargeOperands(W, shift, magic);
    RecoverLargeIs(W, magic, shift, halfQ, Pair(W, rHi, rLo));
  }

  /** The hi/lo code of the 65-bit case of libdivide_u64_recover. */
  method ComputeRecoverLarge64(magic: nat, shift: nat) returns (d: nat)
    requires 0 < magic < Pow2(64) && shift < 64
    ensures d == RecoverLarge(64, magic, shift)
  {
    hide Pow2, Wrap, Pair, Shl, Or, RecoverLarge, HalfDivided;
    var dHi, dLo := 1, magic;
    var halfQ, rHi, rLo := DivideHalf64(magic, shift);
    var drLo := Wrap(64, rLo + rLo);
    var drHi := Wrap(64, rHi + rHi + (if drLo < rLo then 1 else 0));
    var exceeds := drHi > dHi || (drHi == dHi && drLo >= dLo);
    var fullQ := Wrap(64, halfQ + halfQ + (if exceeds then 1 else 0));
    d := Wrap(64, fullQ + 1);
    HalfDividedRecovers(64, magic, shift, halfQ, rHi, rLo);
  }

  /** halfQ and {rHi, rLo} are quotient and remainder of 2^(W + shift) by the (W+1)-bit magic number. */
  ghost predicate HalfDivided(W: nat, magic: nat, shift: nat, halfQ: nat, rHi: nat, rLo: nat) {
    && halfQ < Pow2(W) && rLo < Pow2(W)
    && Pair(W, Pow2(shift), 0) == halfQ * Pair(W, 1, magic) + Pair(W, rHi, rLo)
    && Pair(W, rHi, rLo) < Pair(W, 1, magic)
  }

  method DivideHalf64(magic: nat, shift: nat) returns (halfQ: nat, rHi: nat, rLo: nat)
    requires 0 < magic < Pow2(64) && shift < 64
    ensures HalfDivided(64, magic, shift, halfQ, rHi, rLo)
  {
    hide Pow2, Pair, Shl, Or;
    var halfNHi := Shl(64, 1, shift);
    ShlOne(64, shift);
    LargeOperands(64, shift, magic);
    halfQ, rHi, rLo := DivideDoubleByDouble(32, halfNHi, 0, 1, magic);
  }

  lemma HalfDividedRecovers(W: nat, magic: nat, shift: nat, halfQ: nat, rHi: nat, rLo: nat)
    requires W >= 2 && 0 < magic < Pow2(W) && shift < W && HalfDivided(W, magic, shift, halfQ, rHi, rLo)
    ensures var drLo := Wrap(W, rLo + rLo);
            var drHi := Wrap(W, rHi + rHi + (if drLo < rLo then 1 else 0));
            var exceeds := drHi > 1 || (drHi == 1 && drLo >= magic);
            RecoverLarge(W, magic, shift) == Wrap(W, Wrap(W, halfQ + halfQ + (if exceeds then 1 else 0)) + 1)
  {
    hide Pow2, Wrap, Pair, RecoverLarge;
    DoubledRemainder(W, rHi, rLo, magic);
    RecoverLargeFromPairs(W, magic, shift, halfQ, rHi, rLo);
  }

  /** libdivide_u64_recover and its branch-free twin with their wide divisions. */
  method ComputeRecover64(denom: Divider, branchfree: bool) returns (d: nat)
    requires ValidUnsigned(64, denom)
    ensures d == if branchfree then BranchfreeRecover(64, denom) else Recover(64, denom)
  {
    hide Pow2, Wrap, And, Shl, RecoverLarge, WideQuotient;
    MaskOf(64, denom.more);
    var shift := And(denom.more, 63);
    if denom.magic == 0 {
      return Shl(64, 1, if branchfree then shift + 1 else shift);
    }
    if !branchfree && And(denom.more, ADD_MARKER) == 0 {
      var hi := Shl(64, 1, shift);
      var q, rem := WideDivide64(hi, 0, denom.magic);
      return Wrap(64, 1 + q);
    }
    d := ComputeRecoverLarge64(denom.magic, shift);
  }
}

/** What libdivide's signed and unsigned dividers share: the arithmetic of magic
    numbers, the layout of the `more` byte and the wide division of the generators. */
module MagicNumbers {
  import opened Words
  import opened Bits
  import opened WideArithmetic
  import opened WideDivision

  datatype Divider = Divider(magic: int, more: nat)

  /** LIBDIVIDE_ERROR prints a message and aborts. */
  datatype Outcome<+T> = Ok(value: T) | Aborted

  const ADD_MARKER: nat := 0x40
  const NEGATIVE_DIVISOR: nat := 0x80

  predicate IsWidth(W: nat) {
    W == 32 || W == 64
  }

  // ---------- multiply and shift instead of dividing ----------

  /** If m*d exceeds P by e and n*e < P, then multiplying by m and dropping the
      factor P is division by d. */
  lemma MagicQuotient(P: int, m: int, d: int, e: int, n: int)
    requires P > 0 && d > 0 && m * d == P + e && 0 <= e && 0 <= n && n * e < P && 0 <= m
    ensures (m * n) / P == n / d
  {
    var q, r := n / d, n % d;
    DivMod(n, d);
    assert q * P <= m * n by { MagicLower(P, m, d, e, n, q, r); }
    assert m * n < (q + 1) * P by { MagicUpper(P, m, d, e, n, q, r); }
    DivBetween(m * n, P, q);
  }

  lemma MagicLower(P: int, m: int, d: int, e: int, n: int, q: int, r: int)
    requires P > 0 && d > 0 && m * d == P + e && 0 <= e && 0 <= n && 0 <= m && n == q * d + r && 0 <= r < d
    ensures q * P <= m * n && 0 <= q
  {
    if q < 0 {
      MulMono(q, -1, d);
    }
    MulMono(0, r, m);
    MulMono(0, q, e);
    calc {
      m * n;
      m * (q * d + r);
      q * (m * d) + m * r;
      q * P + q * e + m * r;
    }
  }

  lemma MagicUpper(P: int, m: int, d: int, e: int, n: int, q: int, r: int)
    requires P > 0 && d > 0 && m * d == P + e && n * e < P && n == q * d + r && r < d
    ensures m * n < (q + 1) * P
  {
    calc {
      (m * n) * d;
      n * (m * d);
      n * P + n * e;
    }
    MulMono(n + 1, (q + 1) * d, P);
    assert ((q + 1) * d) * P == ((q + 1) * P) * d;
    MulCancelLt(m * n, (q + 1) * P, d);
  }

  /** Dividing P by the magic number instead of by d gives back d, one too small. */
  lemma RecoverQuotient(P: int, m: int, d: int, e: int)
    requires m > 0 && m * d == P + e && 0 < e <= m
    ensures P / m == d - 1
  {
    assert (d - 1) * m == m * d - m;
    DivUnique(P, m, d - 1, m - e);
  }

  /** With d strictly between F and 2*F, the candidate magic numbers are in range. */
  lemma SmallMagicRange(B: int, F: int, d: int, pm: int, rem: int)
    requires F < d < 2 * F && 2 * F <= B && B * F == pm * d + rem && 0 <= rem < d
    ensures 0 <= pm <= B - 2
    ensures B <= 2 * (pm + 1)
  {
    SmallMagicUpper(B, F, d, pm, rem);
    SmallMagicLower(B, F, d, pm, rem);
  }

  lemma SmallMagicUpper(B: int, F: int, d: int, pm: int, rem: int)
    requires F < d < 2 * F && 2 * F <= B && B * F == pm * d + rem && 0 <= rem
    ensures pm <= B - 2
  {
    if pm >= B - 1 {
      MulMono(B - 1, pm, d);
      MulMono(F + 1, d, B - 1);
    }
  }

  lemma SmallMagicLower(B: int, F: int, d: int, pm: int, rem: int)
    requires 0 < d < 2 * F && 2 * F <= B && B * F == pm * d + rem && 0 <= rem < d
    ensures B <= 2 * (pm + 1) && 0 <= pm
  {
    MulStrict(0, B, F);
    assert (pm + 1) * d == pm * d + d;
    MulCancelLt(0, pm + 1, d);
    if 2 * (pm + 1) < B {
      MulMono(2 * (pm + 1), B, F);
      MulMono(d, 2 * F, pm + 1);
    }
  }

  lemma LargeMagicRange(B: int, F: int, d: int, pm: int, rem: int)
    requires F < d < 2 * F && 2 * F <= B && 2 * (B * F) == pm * d + rem && 0 <= rem < d
    ensures B <= pm <= 2 * B - 2
  {
    LargeMagicUpper(B, F, d, pm, pm * d, B * F, B * d);
    LargeMagicLower(B, F, d, pm, pm * d, B * F, B * d);
  }

  lemma LargeMagicUpper(B: int, F: int, d: int, pm: int, pmd: int, BF: int, Bd: int)
    requires F < d < 2 * F && 2 * F <= B && pmd == pm * d && BF == B * F && Bd == B * d && pmd <= 2 * BF
    ensures pm <= 2 * B - 2
  {
    MulMono(F + 1, d, B);
    assert B * (F + 1) == BF + B && (2 * B - 1) * d == 2 * Bd - d;
    if pm >= 2 * B - 1 {
      MulMono(2 * B - 1, pm, d);
    }
  }

  lemma LargeMagicLower(B: int, F: int, d: int, pm: int, pmd: int, BF: int, Bd: int)
    requires F < d < 2 * F && 2 * F <= B && pmd == pm * d && BF == B * F && Bd == B * d && 2 * BF < pmd + d
    ensures B <= pm
  {
    MulMono(d, 2 * F - 1, B);
    assert B * (2 * F - 1) == 2 * BF - B && (pm + 1) * d == pmd + d;
    if pm < B {
      MulMono(pm + 1, B, d);
    }
  }

  /** Doubles quotient and remainder, all of it wrapping, as the generators do. */
  function DoubledMagic(W: nat, d: nat, pm: nat, rem: nat): (r: nat) {
    var twice := Wrap(W, pm + pm);
    var twiceRem := Wrap(W, rem + rem);
    if twiceRem >= d || twiceRem < rem then Wrap(W, twice + 1) else twice
  }

  /** The overflow-aware test decides 2*rem >= d, so the doubled pair divides 2*N. */
  lemma DoubledMagicExact(W: nat, d: nat, N: int, pm: nat, rem: nat)
    requires 0 < d < Pow2(W) && N == pm * d + rem && rem < d
    ensures var c := if rem + rem >= d then 1 else 0;
            && Wrap(W, 1 + DoubledMagic(W, d, pm, rem)) == Wrap(W, pm + pm + c + 1)
            && 2 * N == (pm + pm + c) * d + (rem + rem - c * d)
            && 0 <= rem + rem - c * d < d
  {
    hide Pow2;
    if rem + rem >= Pow2(W) {
      WrapShifted(W, rem + rem - Pow2(W), 1);
      WrapOfSmall(W, rem + rem - Pow2(W));
    } else {
      WrapOfSmall(W, rem + rem);
    }
    hide Wrap;
    WrapAdd(W, pm + pm, 1);
    WrapAdd(W, pm + pm + 1, 1);
    WrapAdd(W, Wrap(W, pm + pm) + 1, 1);
    WrapAdd(W, pm + pm, 2);
    assert (pm + pm) * d == 2 * (pm * d);
    assert (pm + pm + 1) * d == 2 * (pm * d) + d;
  }

  lemma WrapAdd(W: nat, x: int, y: int)
    ensures Wrap(W, Wrap(W, x) + y) == Wrap(W, x + y)
  {
    hide Pow2;
    DivMod(x, Pow2(W));
    ModAddMultiple(Wrap(W, x) + y, x / Pow2(W), Pow2(W));
  }

  // ---------- the `more` byte ----------

  lemma ShiftBits(W: nat, f: nat)
    requires IsWidth(W) && f < W
    ensures And(f, W - 1) == f && And(f, ADD_MARKER) == 0
    ensures Or(f, ADD_MARKER) == f + 64
  {
    hide And, Or, Pow2;
    MaskOf(W, f);
    NoAddBit(f);
    SetAddBit(f);
  }

  lemma NoAddBit(f: nat)
    requires f < 64
    ensures And(f, ADD_MARKER) == 0
  {
    assert Pow2(6) == 64;
    hide And;
    AndPow2(f, 6);
  }

  lemma SetAddBit(f: nat)
    requires f < 64
    ensures Or(f, ADD_MARKER) == f + 64
  {
    assert Pow2(6) == 64;
    hide Or;
    OrDisjoint(f, 1, 6);
  }

  lemma MaskOf(W: nat, x: nat)
    requires IsWidth(W)
    ensures And(x, W - 1) == x % W
  {
    hide And;
    if W == 32 {
      MaskOf32(x);
    } else {
      MaskOf64(x);
    }
  }

  lemma MaskOf32(x: nat)
    ensures And(x, 31) == x % 32
  {
    assert Pow2(5) == 32;
    hide And;
    AndMask(x, 5);
  }

  lemma MaskOf64(x: nat)
    ensures And(x, 63) == x % 64
  {
    assert Pow2(6) == 64;
    hide And;
    AndMask(x, 6);
  }

  /** The shift field is unaffected by the two marker bits. */
  lemma MaskOfSum(W: nat, f: nat, k: nat)
    requires IsWidth(W) && f < W
    ensures And(f + 64 * k, W - 1) == f
  {
    hide And;
    if W == 32 {
      MaskOfSum32(f, k);
    } else {
      MaskOfSum64(f, k);
    }
  }

  lemma MaskOfSum32(f: nat, k: nat)
    requires f < 32
    ensures And(f + 64 * k, 31) == f
  {
    hide And;
    MaskOf32(f + 64 * k);
    DivUnique(f + 64 * k, 32, 2 * k, f);
  }

  lemma MaskOfSum64(f: nat, k: nat)
    requires f < 64
    ensures And(f + 64 * k, 63) == f
  {
    hide And;
    MaskOf64(f + 64 * k);
    DivUnique(f + 64 * k, 64, k, f);
  }

  lemma BitSix(x: nat)
    ensures And(x, ADD_MARKER) != 0 <==> (x / 64) % 2 == 1
  {
    assert Pow2(6) == 64;
    hide And;
    AndPow2(x, 6);
  }

  lemma BitSeven(x: nat)
    ensures And(x, NEGATIVE_DIVISOR) != 0 <==> (x / 128) % 2 == 1
  {
    assert Pow2(7) == 128;
    hide And;
    AndPow2(x, 7);
  }

  lemma AddBits(W: nat, f: nat)
    requires IsWidth(W) && f < W
    ensures And(f + 64, W - 1) == f && And(f + 64, ADD_MARKER) != 0
  {
    hide And;
    MaskOfSum(W, f, 1);
    BitSix(f + 64);
  }

  // ---------- wide division of the generators ----------

  /** Quotient and remainder of {u1, u0} by v. On overflow the 64-bit code saturates
      and the 32-bit code truncates. */
  function WideQuotient(W: nat, u1: nat, u0: nat, v: nat): (r: (nat, nat))
    requires v > 0
  {
    if W == 64 && u1 >= v then (Pow2(W) - 1, Pow2(W) - 1)
    else
      var n := u1 * Pow2(W) + u0;
      var q := Wrap(W, n / v);
      (q, Wrap(W, n - q * v))
  }

  lemma WideQuotientExact(W: nat, u1: nat, u0: nat, v: nat)
    requires u0 < Pow2(W) && u1 < v < Pow2(W)
    ensures var (q, r) := WideQuotient(W, u1, u0, v);
            u1 * Pow2(W) + u0 == q * v + r && r < v && q == (u1 * Pow2(W) + u0) / v
  {
    hide Pow2, Wrap;
    var n := u1 * Pow2(W) + u0;
    QuotientIsWord(Pow2(W), u1, u0, v, n);
    DivMod(n, v);
    WrapOfSmall(W, n / v);
    WrapOfSmall(W, n % v);
  }

  lemma QuotientIsWord(B: int, u1: int, u0: int, v: int, n: int)
    requires 0 <= u1 < v && 0 <= u0 < B && n == u1 * B + u0
    ensures 0 <= n / v < B
  {
    MulMono(u1 + 1, v, B);
    assert (u1 + 1) * B == u1 * B + B;
    MulNonneg(u1, B);
    MulComm(v, B);
    DivBelow(n, v, B);
  }

  function MulHighHalves(W: nat, h: nat, x: nat, y: nat): (r: nat)
    requires W == h + h && x < Pow2(W) && y < Pow2(W)
  {
    MulHighUnsigned(h, x, y)
  }

  /** High half of a product: one wide multiplication for 32 bits, four for 64. */
  function MulHighWord(W: nat, x: nat, y: nat): (r: nat)
    requires IsWidth(W) && x < Pow2(W) && y < Pow2(W)
  {
    MulNonneg(x, y);
    if W == 64 then MulHighHalves(W, W / 2, x, y) else Shr(x * y, W)
  }

  lemma MulHighWordExact(W: nat, x: nat, y: nat)
    requires IsWidth(W) && x < Pow2(W) && y < Pow2(W)
    ensures MulHighWord(W, x, y) == (x * y) / Pow2(W) && MulHighWord(W, x, y) <= y
  {
    hide Pow2, MulHighUnsigned;
    var h := W / 2;
    assert h + h == W;
    if W == 64 {
      MulHighUnsignedExact(h, x, y);
    }
    MulHighFits(y, x, Pow2(W));
  }

  lemma WideQuotientIs(W: nat, u1: nat, u0: nat, v: nat, q: nat, r: nat)
    requires u0 < Pow2(W) && v < Pow2(W) && v > 0 && W == 64
    requires u1 >= v ==> q == Pow2(W) - 1 && r == Pow2(W) - 1
    requires u1 < v ==> u1 * Pow2(W) + u0 == q * v + r && r < v
    ensures WideQuotient(W, u1, u0, v) == (q, r)
  {
    hide Pow2, Wrap;
    if u1 < v {
      WideQuotientExact(W, u1, u0, v);
      DivUnique(u1 * Pow2(W) + u0, v, q, r);
    }
  }

  /** The 64-bit wide division with its loops is the wide quotient. */
  method WideDivide64(u1: nat, u0: nat, v: nat) returns (q: nat, r: nat)
    requires u1 < Pow2(64) && u0 < Pow2(64) && 0 < v < Pow2(64)
    ensures (q, r) == WideQuotient(64, u1, u0, v)
    ensures u1 < v ==> r < v
  {
    hide Pow2, WideQuotient;
    q, r := DivideDoubleBySingle(32, u1, u0, v);
    WideQuotientIs(64, u1, u0, v, q, r);
  }

  lemma DoubledMagicIs(W: nat, d: nat, pm: nat, rem: nat, r: nat)
    requires var twice, twiceRem := Wrap(W, pm + pm), Wrap(W, rem + rem);
             r == if twiceRem >= d || twiceRem < rem then Wrap(W, twice + 1) else twice
    ensures DoubledMagic(W, d, pm, rem) == r
  {
    hide Pow2, Wrap;
  }

  lemma ShlOne(W: nat, s: nat)
    requires s < W
    ensures Shl(W, 1, s) == Pow2(s)
  {
    Pow2Mono(s, W);
    hide Pow2, Wrap;
    WrapOfSmall(W, 1 * Pow2(s));
  }
}

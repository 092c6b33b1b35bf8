/** Double-word arithmetic behind libdivide: high-half products and leading zeros. A word has W == 2*h bits and a half
    word h bits; the library's 64-bit code is h == 32. */
module WideArithmetic {
  import opened Words
  import opened Bits

  // ---------- high half of a product ----------

  lemma TwoDigits(b: int, hi: int, lo: int)
    requires 0 <= hi < b && 0 <= lo < b
    ensures 0 <= hi * b + lo < b * b
  {
    MulMono(hi, b - 1, b);
    MulMono(0, hi, b);
    assert (b - 1) * b == b * b - b;
  }

  lemma ProductOfDigits(b: int, x1: int, x0: int, y1: int, y0: int)
    ensures (x1 * b + x0) * (y1 * b + y0) == x1 * y1 * (b * b) + (x1 * y0 + x0 * y1) * b + x0 * y0
  {
  }

  lemma SchoolbookCarry(b: int, B: int, x1y1: int, x1y0: int, x0y1: int, phi: int, plo: int, t: int, w: int)
    requires b > 0 && B == b * b
    requires t == x1y0 + phi && w == x0y1 + t % b
    ensures x1y1 * B + (x1y0 + x0y1) * b + (phi * b + plo)
         == (x1y1 + t / b + w / b) * B + ((w % b) * b + plo)
  {
    DivMod(t, b);
    DivMod(w, b);
    assert (x1y0 + x0y1) * b + phi * b == (t / b * b + (w / b * b + w % b)) * b;
  }

  /** The four-product scheme: with x == x1*b + x0 and y == y1*b + y0 the carry chain
      t, w leaves exactly the high half of x*y. Holds for signed high digits too. */
  lemma SchoolbookHigh(b: int, B: int, x1: int, x0: int, y1: int, y0: int, t: int, w: int)
    requires b > 0 && B == b * b && 0 <= x0 < b && 0 <= y0 < b
    requires t == x1 * y0 + (x0 * y0) / b
    requires w == x0 * y1 + t % b
    ensures B > 0
    ensures x1 * y1 + t / b + w / b == ((x1 * b + x0) * (y1 * b + y0)) / B
  {
    var X := (x1 * b + x0) * (y1 * b + y0);
    var p := x0 * y0;
    var q := x1 * y1 + t / b + w / b;
    var rest := (w % b) * b + p % b;
    assert 0 <= rest < B by { TwoDigits(b, w % b, p % b); }
    assert X == q * B + rest by {
      DivMod(p, b);
      ProductOfDigits(b, x1, x0, y1, y0);
      SchoolbookCarry(b, B, x1 * y1, x1 * y0, x0 * y1, p / b, p % b, t, w);
    }
    DivUnique(X, B, q, rest);
  }

  lemma ProductBelow(x: int, y: int, b: int)
    requires 0 <= x < b && 0 <= y < b
    ensures 0 <= x * y <= b * b - 2 * b + 1
  {
    MulMono(0, x, y);
    MulMono(x, b - 1, y);
    MulMono(y, b - 1, b - 1);
    assert (b - 1) * (b - 1) == b * b - 2 * b + 1;
  }

  lemma DivBelow(x: int, d: int, k: int)
    requires d > 0 && 0 <= x < k * d
    ensures 0 <= x / d < k
  {
    DivMod(x, d);
    if x / d >= k {
      MulMono(k, x / d, d);
    }
    if x / d < 0 {
      MulMono(x / d, -1, d);
    }
  }

  /** Portable unsigned high-half product, every word operation wrapping. */
  function MulHighUnsigned(h: nat, x: nat, y: nat): (r: nat)
    requires x < Pow2(h + h) && y < Pow2(h + h)
  {
    var mask := Pow2(h) - 1;
    MulHighDigits(h, h + h, Shr(x, h), And(x, mask), Shr(y, h), And(y, mask))
  }

  function MulHighDigits(h: nat, W: nat, x1: nat, x0: nat, y1: nat, y0: nat): (r: nat)
  {
    var x0y0Hi := Shr(x0 * y0, h);
    var x0y1 := Wrap(W, x0 * y1);
    var x1y0 := Wrap(W, x1 * y0);
    var x1y1 := Wrap(W, x1 * y1);
    var temp := Wrap(W, x1y0 + x0y0Hi);
    var tempLo := And(temp, Pow2(h) - 1);
    var tempHi := Shr(temp, h);
    Wrap(W, x1y1 + tempHi + Shr(Wrap(W, tempLo + x0y1), h))
  }

  /** A word is its high half times the base plus its masked low half. */
  lemma SplitWord(h: nat, x: nat)
    requires x < Pow2(h + h)
    ensures Shr(x, h) < Pow2(h) && And(x, Pow2(h) - 1) < Pow2(h)
    ensures x == Shr(x, h) * Pow2(h) + And(x, Pow2(h) - 1)
  {
    AndMask(x, h);
    Pow2Add(h, h);
    DivMod(x, Pow2(h));
    DivBelow(x, Pow2(h), Pow2(h));
  }

  /** The chain over exact integers, with every sum shown to stay below B. */
  lemma UnsignedChainFits(b: int, B: int, x1: int, x0: int, y1: int, y0: int, phi: int, t: int, tl: int, th: int, w: int)
    requires b > 0 && B == b * b && 0 <= x0 < b && 0 <= x1 < b && 0 <= y0 < b && 0 <= y1 < b
    requires phi == (x0 * y0) / b && t == x1 * y0 + phi && tl == t % b && th == t / b && w == tl + x0 * y1
    ensures 0 <= x0 * y1 < B && 0 <= x1 * y0 < B && 0 <= x1 * y1 < B
    ensures 0 <= t < B && 0 <= w < B
    ensures x1 * y1 + th + w / b == ((x1 * b + x0) * (y1 * b + y0)) / B
  {
    ProductBelow(x0, y0, b);
    ProductBelow(x0, y1, b);
    ProductBelow(x1, y0, b);
    ProductBelow(x1, y1, b);
    DivBelow(x0 * y0, b, b);
    SchoolbookHigh(b, B, x1, x0, y1, y0, t, w);
  }

  lemma MulHighFits(x: nat, y: nat, B: nat)
    requires x < B && y < B
    ensures 0 <= (x * y) / B < B
    ensures (x * y) / B <= x
  {
    MulMono(y, B, x);
    MulMono(0, y, x);
    MulStrict(x, x + 1, B);
    DivBelow(x * y, B, x + 1);
  }

  /** Sums that stay in range are unchanged by wrapping. */
  lemma WrapsVanish(h: nat, W: nat, x0y1: nat, x1y0: nat, x1y1: nat, phi: nat, t: nat, w: nat, r: nat)
    requires x0y1 < Pow2(W) && x1y0 < Pow2(W) && x1y1 < Pow2(W)
    requires t == x1y0 + phi && t < Pow2(W)
    requires w == And(t, Pow2(h) - 1) + x0y1 && w < Pow2(W)
    requires r == x1y1 + Shr(t, h) + Shr(w, h) && r < Pow2(W)
    ensures var temp := Wrap(W, Wrap(W, x1y0) + phi);
            r == Wrap(W, Wrap(W, x1y1) + Shr(temp, h)
                         + Shr(Wrap(W, And(temp, Pow2(h) - 1) + Wrap(W, x0y1)), h))
  {
    hide Pow2, Wrap, And, Shr;
    WrapOfSmall(W, x0y1);
    WrapOfSmall(W, x1y0);
    WrapOfSmall(W, x1y1);
    WrapOfSmall(W, t);
    WrapOfSmall(W, w);
    WrapOfSmall(W, r);
  }

  ghost predicate IsSplit(b: int, x: int, x1: int, x0: int) {
    0 <= x1 < b && 0 <= x0 < b && x == x1 * b + x0
  }

  ghost predicate IsHighHalf(B: int, x: int, y: int, r: int) {
    B > 0 && r == (x * y) / B && r < B
  }

  lemma MulHighDigitsExact(h: nat, W: nat, x: nat, y: nat, x1: nat, x0: nat, y1: nat, y0: nat, r: nat)
    requires Pow2(W) == Pow2(h) * Pow2(h) && IsSplit(Pow2(h), x, x1, x0) && IsSplit(Pow2(h), y, y1, y0)
    requires IsHighHalf(Pow2(W), x, y, r)
    ensures MulHighDigits(h, W, x1, x0, y1, y0) == r
  {
    hide Pow2, Wrap, And, Shr, IsSplit, IsHighHalf;
    MulNonneg(x0, y0);
    MulNonneg(x0, y1);
    MulNonneg(x1, y0);
    MulNonneg(x1, y1);
    DigitsChain(h, W, x, y, x1, x0, y1, y0, x0 * y0, x0 * y1, x1 * y0, x1 * y1, r);
  }

  lemma DigitsChain(h: nat, W: nat, x: nat, y: nat, x1: nat, x0: nat, y1: nat, y0: nat,
                    x0y0: nat, x0y1: nat, x1y0: nat, x1y1: nat, r: nat)
    requires Pow2(W) == Pow2(h) * Pow2(h) && IsSplit(Pow2(h), x, x1, x0) && IsSplit(Pow2(h), y, y1, y0)
    requires x0y0 == x0 * y0 && x0y1 == x0 * y1 && x1y0 == x1 * y0 && x1y1 == x1 * y1
    requires IsHighHalf(Pow2(W), x, y, r)
    ensures var temp := Wrap(W, Wrap(W, x1y0) + Shr(x0y0, h));
            r == Wrap(W, Wrap(W, x1y1) + Shr(temp, h)
                         + Shr(Wrap(W, And(temp, Pow2(h) - 1) + Wrap(W, x0y1)), h))
  {
    hide Pow2, Wrap, And;
    var phi := Shr(x0y0, h);
    var t := x1y0 + phi;
    AndMask(t, h);
    var tl := And(t, Pow2(h) - 1);
    var w := tl + x0y1;
    UnsignedChainFits(Pow2(h), Pow2(W), x1, x0, y1, y0, phi, t, tl, Shr(t, h), w);
    hide Shr;
    WrapsVanish(h, W, x0y1, x1y0, x1y1, phi, t, w, r);
  }

  /** No partial sum overflows, so the wrapping code returns the exact high half. */
  lemma MulHighUnsignedExact(h: nat, x: nat, y: nat)
    requires x < Pow2(h + h) && y < Pow2(h + h)
    ensures MulHighUnsigned(h, x, y) == (x * y) / Pow2(h + h)
  {
    hide Pow2, And, Shr, MulHighDigits;
    SplitWord(h, x);
    SplitWord(h, y);
    MulHighFits(x, y, Pow2(h + h));
    Pow2Add(h, h);
    MulHighDigitsExact(h, h + h, x, y, Shr(x, h), And(x, Pow2(h) - 1), Shr(y, h), And(y, Pow2(h) - 1),
                       (x * y) / Pow2(h + h));
  }

  /** Portable signed high-half product; right shifts are arithmetic, so they floor. */
  function MulHighSigned(h: nat, x: int, y: int): (r: int)
  {
    var b := Pow2(h);
    var x0 := x % b;
    var y0 := y % b;
    var x1 := x / b;
    var y1 := y / b;
    var t := x1 * y0 + (x0 * y0) / b;
    var w1 := x0 * y1 + t % b;
    x1 * y1 + t / b + w1 / b
  }

  predicate FitsSigned(W: nat, x: int)
    requires W > 0
  {
    0 - Pow2(W - 1) <= x < Pow2(W - 1)
  }

  /** Exact, and every product and sum formed on the way stays inside the signed range: no signed overflow occurs. */
  lemma MulHighSignedExact(h: nat, x: int, y: int)
    requires h > 0 && FitsSigned(h + h, x) && FitsSigned(h + h, y)
    ensures MulHighSigned(h, x, y) == (x * y) / Pow2(h + h) && FitsSigned(h + h, MulHighSigned(h, x, y))
    ensures var b := Pow2(h); var W := h + h;
            var x1, x0, y1, y0 := x / b, x % b, y / b, y % b;
            var t := x1 * y0 + (x0 * y0) / b;
            && FitsSigned(W, x1 * y0) && FitsSigned(W, t)
            && FitsSigned(W, x0 * y1) && FitsSigned(W, x0 * y1 + t % b)
            && FitsSigned(W, x1 * y1) && FitsSigned(W, x1 * y1 + t / b)
  {
    hide Pow2;
    Pow2Add(h, h);
    Pow2Add(h - 1, h);
    TopPower(h);
    TopPower(h + h);
    var b := Pow2(h);
    var x1, x0, y1, y0 := x / b, x % b, y / b, y % b;
    var t := x1 * y0 + (x0 * y0) / b;
    var w := x0 * y1 + t % b;
    SignedChain(b, Pow2(h - 1), Pow2(h + h - 1), Pow2(h + h), x, y, x1, x0, y1, y0, (x0 * y0) / b, t, t / b, t % b, w, w / b);
  }

  /** The chain over exact integers: its value is the high half, and nothing leaves the signed range. */
  lemma SignedChain(b: int, c: int, H: int, B: int, x: int, y: int, x1: int, x0: int, y1: int, y0: int,
                    phi: int, t: int, th: int, tl: int, w: int, wh: int)
    requires c > 0 && b == 2 * c && H == c * b && B == b * b && B == 2 * H && -H <= x < H && -H <= y < H
    requires x1 == x / b && x0 == x % b && y1 == y / b && y0 == y % b
    requires phi == (x0 * y0) / b && t == x1 * y0 + phi && th == t / b && tl == t % b
    requires w == x0 * y1 + tl && wh == w / b
    ensures -H <= x1 * y0 < H && -H <= t < H && -H <= x0 * y1 < H && -H <= w < H
    ensures -H <= x1 * y1 < H && -H <= x1 * y1 + th < H
    ensures B > 0 && x1 * y1 + th + wh == (x * y) / B && -H <= (x * y) / B < H
  {
    SignedHighDigit(x, b, c, x1, x0);
    SignedHighDigit(y, b, c, y1, y0);
    PartialCarry(x0, y0, b, phi);
    DivMod(t, b);
    SignedCarries(b, c, x1, x0, y1, y0, phi, t, th, tl, w);
    SchoolbookHigh(b, B, x1, x0, y1, y0, t, w);
    SignedHighFits(H, B, x, y);
  }

  lemma PartialCarry(x0: int, y0: int, b: int, phi: int)
    requires 0 <= x0 < b && 0 <= y0 < b && phi == (x0 * y0) / b
    ensures 0 <= phi < b
  {
    ProductBelow(x0, y0, b);
    DivBelow(x0 * y0, b, b);
  }

  lemma SignedHighFits(H: int, B: int, x: int, y: int)
    requires H > 0 && B == 2 * H && -H <= x < H && -H <= y < H
    ensures -H <= (x * y) / B < H
  {
    SignedProduct(H, x, y);
    MulDouble(H, H);
    MulStrict(0, H, H);
    DivMod(x * y, B);
    DigitBounds(x * y, B, H, (x * y) / B, (x * y) % B);
  }

  /** The ranges of the signed chain, with its quotients and remainders as variables. */
  lemma SignedCarries(b: int, c: int, x1: int, x0: int, y1: int, y0: int, phi: int, t: int, th: int, tl: int, w: int)
    requires c > 0 && b == 2 * c && -c <= x1 < c && -c <= y1 < c && 0 <= x0 < b && 0 <= y0 < b && 0 <= phi < b
    requires t == x1 * y0 + phi && t == th * b + tl && 0 <= tl < b && w == x0 * y1 + tl
    ensures -(c * b) <= x1 * y0 < c * b && -(c * b) <= t < c * b
    ensures -(c * b) <= x0 * y1 < c * b && -(c * b) <= w < c * b
    ensures -(c * b) <= x1 * y1 < c * b && -(c * b) <= x1 * y1 + th < c * b
  {
    SignedCarryFits(b, c, x1, y0, 0);
    SignedCarryFits(b, c, x1, y0, phi);
    MulComm(x0, y1);
    SignedCarryFits(b, c, y1, x0, 0);
    SignedCarryFits(b, c, y1, x0, tl);
    DigitBounds(t, b, c, th, tl);
    SignedProduct(c, x1, y1);
    Doubled(b, c);
  }

  lemma Doubled(b: int, c: int)
    requires b == 2 * c && c > 0
    ensures c * b == 2 * (c * c) && c <= c * c
  {
  }

  lemma SignedProduct(c: int, x: int, y: int)
    requires c > 0 && -c <= x < c && -c <= y < c
    ensures -(c * c) <= x * y <= c * c
  {
    if x >= 0 {
      MulMono(y, c, x);
      MulMono(-c, y, x);
      MulMono(x, c, c);
      assert x * (-c) == -(x * c);
    } else {
      MulMono(y, c, -x);
      MulMono(-c, y, -x);
      MulMono(-x, c, c);
      assert (-x) * y == -(x * y) && (-x) * (-c) == -((-x) * c);
    }
  }

  /** A value in the signed range of two digits has a high digit in the signed range of one. */
  lemma DigitBounds(x: int, b: int, c: int, q: int, r: int)
    requires b > 0 && -(c * b) <= x < c * b && x == q * b + r && 0 <= r < b
    ensures -c <= q < c
  {
    if q >= c {
      MulMono(c, q, b);
    }
    if q < -c {
      MulMono(q, -c - 1, b);
    }
  }

  lemma SignedHighDigit(x: int, b: int, c: int, q: int, r: int)
    requires b > 0 && -(c * b) <= x < c * b && q == x / b && r == x % b
    ensures -c <= q < c && x == q * b + r && 0 <= r < b
  {
    DivMod(x, b);
    DigitBounds(x, b, c, q, r);
  }

  lemma SignedCarryFits(b: int, c: int, hi: int, lo: int, carry: int)
    requires b == 2 * c && c > 0 && -c <= hi < c && 0 <= lo < b && 0 <= carry < b
    ensures -(c * b) <= hi * lo + carry < c * b
  {
    MulMono(hi, c - 1, lo);
    MulMono(-c, hi, lo);
    MulMono(lo, b - 1, c - 1);
    MulMono(lo, b, c);
    assert (c - 1) * (b - 1) == c * b - b - c + 1;
    assert (-c) * lo == -(c * lo);
  }

  // ---------- leading zeros ----------

  function LeadingZeros(W: nat, x: nat): (n: nat)
    requires x < Pow2(W)
    ensures n <= W && (x > 0 ==> n < W)
  {
    if x == 0 then W else
      FloorLog2Below(x, W);
      W - 1 - FloorLog2(x)
  }

  /** Masking with a field of w ones at position j keeps exactly that field. */
  lemma {:induction false} AndField(x: nat, w: nat, j: nat)
    ensures And(x, (Pow2(w) - 1) * Pow2(j)) == ((x / Pow2(j)) % Pow2(w)) * Pow2(j)
  {
    if j == 0 {
      AndMask(x, w);
    } else {
      var k, p := Pow2(w) - 1, Pow2(j - 1);
      calc {
        And(x, k * (2 * p));
        { MulDouble(k, p); AndEven(x, k * p); }
        2 * And(x / 2, k * p);
        { AndField(x / 2, w, j - 1); }
        2 * (((x / 2 / p) % Pow2(w)) * p);
        { DivDiv(x, 2, p); MulDouble((x / (2 * p)) % Pow2(w), p); }
        ((x / (2 * p)) % Pow2(w)) * (2 * p);
      }
    }
  }

  /** A field test: the value has a bit in the field, or it lies wholly below it. */
  lemma FieldTest(x: nat, w: nat, j: nat)
    requires x < Pow2(j + w)
    ensures And(x, (Pow2(w) - 1) * Pow2(j)) == 0 <==> x < Pow2(j)
  {
    AndField(x, w, j);
    Pow2Add(w, j);
    FieldZero(x, Pow2(w), Pow2(j));
  }

  lemma FieldZero(x: int, a: int, p: int)
    requires a > 0 && p > 0 && 0 <= x < a * p
    ensures ((x / p) % a) * p == 0 <==> x < p
  {
    DivBelow(x, p, a);
    DivUnique(x / p, a, 0, x / p);
    DivMod(x, p);
    if x / p > 0 {
      MulMono(1, x / p, p);
    }
  }

  /** Moving the field one place left drops the bit that leaves the word. */
  lemma ShiftField(w: nat, j: nat, W: nat)
    requires j + w <= W
    ensures j + w < W ==> Wrap(W, 2 * ((Pow2(w) - 1) * Pow2(j))) == (Pow2(w) - 1) * Pow2(j + 1)
    ensures w > 0 && j + w == W ==> Wrap(W, 2 * ((Pow2(w) - 1) * Pow2(j))) == (Pow2(w - 1) - 1) * Pow2(j + 1)
  {
    var p := Pow2(j + 1);
    MulDouble(Pow2(w) - 1, Pow2(j));
    Pow2Add(w, j + 1);
    if j + w < W {
      Pow2Mono(w + (j + 1), W);
      MulMono(0, Pow2(w) - 1, p);
      MulStrict(Pow2(w) - 1, Pow2(w), p);
      WrapOfSmall(W, (Pow2(w) - 1) * p);
    } else if w > 0 {
      Pow2Add(w - 1, j + 1);
      DropTopBit(Pow2(w - 1), p, Pow2(W));
      WrapShifted(W, (Pow2(w - 1) - 1) * p, 1);
      WrapOfSmall(W, (Pow2(w - 1) - 1) * p);
    }
  }

  lemma DropTopBit(a: int, p: int, M: int)
    requires a >= 1 && p >= 1 && M == a * p
    ensures (2 * a - 1) * p == (a - 1) * p + 1 * M
    ensures 0 <= (a - 1) * p < M
  {
    MulMono(0, a - 1, p);
  }

  /** Byte step of the search: an empty top byte lets the mask move down by eight. */
  lemma EmptyByte(val: nat, hi: nat, j: nat)
    requires 0 < val < Pow2(j + 8) && j % 8 == 0
    requires hi == 255 * Pow2(j) && And(val, hi) == 0
    ensures j >= 8 && val < Pow2(j)
    ensures hi / 256 == 255 * Pow2(j - 8)
  {
    assert Pow2(8) == 256;
    FieldTest(val, 8, j);
    if j == 0 {
      assert false;
    }
    Pow2Add(8, j - 8);
    DivUnique(hi, 256, 255 * Pow2(j - 8), 0);
  }

  /** The state of the bit-by-bit loop: hi is a field of w ones at j that covers the top of val. */
  ghost predicate CoversTop(W: nat, val: nat, hi: nat, w: nat, j: nat) {
    && j + w <= W && (j + w < W ==> w == 8)
    && hi == (Pow2(w) - 1) * Pow2(j)
    && val < Pow2(j + w)
    && (j == 0 || Pow2(j - 1) <= val)
  }

  lemma CoversTopStep(W: nat, val: nat, hi: nat, w: nat, j: nat) returns (w': nat)
    requires CoversTop(W, val, hi, w, j) && And(val, hi) != 0
    ensures j < W && CoversTop(W, val, Wrap(W, 2 * hi), w', j + 1)
  {
    hide Pow2, And, Wrap;
    FieldTest(val, w, j);
    EmptyField(w, j, W);
    ShiftField(w, j, W);
    w' := if j + w == W then w - 1 else w;
    Pow2Mono(j + w, j + 1 + w');
  }

  /** A 255-mask walks down by bytes, then left bit by bit until it clears the value.
      The library's word here has W == 32 bits. */
  method CountLeadingZeros(W: nat, val: nat) returns (result: nat)
    requires W >= 8 && W % 8 == 0 && val < Pow2(W)
    ensures result == LeadingZeros(W, val)
  {
    hide Pow2, Wrap, And;
    if val == 0 {
      return W;
    }
    result := 8;
    var hi: nat := 255 * Pow2(W - 8);
    ghost var j: nat := W - 8;
    while And(val, hi) == 0
      invariant result + j == W && j % 8 == 0
      invariant hi == 255 * Pow2(j) && val < Pow2(j + 8)
      decreases j
    {
      EmptyByte(val, hi, j);
      hi := hi / 256;
      result := result + 8;
      j := j - 8;
    }
    ghost var w: nat := 8;
    StartsCovered(W, val, hi, j);
    while And(val, hi) != 0
      invariant result + j == W
      invariant CoversTop(W, val, hi, w, j)
      decreases W - j
    {
      w := CoversTopStep(W, val, hi, w, j);
      result := result - 1;
      hi := Wrap(W, 2 * hi);
      j := j + 1;
    }
    CoversTopDone(W, val, hi, w, j);
  }

  lemma StartsCovered(W: nat, val: nat, hi: nat, j: nat)
    requires j + 8 <= W && hi == 255 * Pow2(j) && val < Pow2(j + 8) && And(val, hi) != 0
    ensures CoversTop(W, val, hi, 8, j)
  {
    assert Pow2(8) == 256;
    FieldTest(val, 8, j);
    if j > 0 {
      Pow2Mono(j - 1, j);
    }
  }

  lemma CoversTopDone(W: nat, val: nat, hi: nat, w: nat, j: nat)
    requires 0 < val < Pow2(W) && CoversTop(W, val, hi, w, j) && And(val, hi) == 0
    ensures W - j == LeadingZeros(W, val)
  {
    hide And, Pow2, FloorLog2;
    FieldTest(val, w, j);
    TopAt(val, j);
  }

  /** A field of no bits is zero, so the mask selects something only while the field has bits. */
  lemma EmptyField(w: nat, j: nat, W: nat)
    ensures w == 0 ==> (Pow2(w) - 1) * Pow2(j) == 0
  {
  }

  lemma TopAt(val: nat, j: nat)
    requires 0 < val < Pow2(j) && (j == 0 || Pow2(j - 1) <= val)
    ensures j > 0 && FloorLog2(val) == j - 1
  {
    hide FloorLog2;
    if j > 0 {
      FloorLog2Unique(val, j - 1);
    }
  }

  /** Leading zeros of a double word through its halves; the library's halves have 32 bits. */
  method CountLeadingZerosDouble(h: nat, val: nat) returns (result: nat)
    requires h >= 8 && h % 8 == 0 && val < Pow2(h + h)
    ensures result == LeadingZeros(h + h, val)
  {
    var hi := Shr(val, h);
    var lo := And(val, Pow2(h) - 1);
    SplitWord(h, val);
    LeadingZerosOfHalves(val, h, hi, lo);
    if hi != 0 {
      result := CountLeadingZeros(h, hi);
    } else {
      var low := CountLeadingZeros(h, lo);
      result := h + low;
    }
  }

  lemma ScaleBounds(p: int, q: int, x: int, b: int, lo: int)
    requires p <= x < q && 0 <= lo < b
    ensures p * b <= x * b + lo < q * b
  {
    MulMono(p, x, b);
    MulMono(x + 1, q, b);
  }

  lemma LeadingZerosOfHalves(val: nat, h: nat, hi: nat, lo: nat)
    requires hi < Pow2(h) && lo < Pow2(h) && val == hi * Pow2(h) + lo && val < Pow2(h + h)
    ensures LeadingZeros(h + h, val) == if hi != 0 then LeadingZeros(h, hi) else h + LeadingZeros(h, lo)
  {
    if hi != 0 {
      var f := FloorLog2(hi);
      assert FloorLog2(val) == f + h by {
        Pow2Add(f, h);
        Pow2Add(f + 1, h);
        ScaleBounds(Pow2(f), Pow2(f + 1), hi, Pow2(h), lo);
        FloorLog2Unique(val, f + h);
      }
      FloorLog2Below(hi, h);
    }
  }
}

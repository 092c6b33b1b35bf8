/** Bitwise operations on naturals, bit by bit from the low end, and the
    arithmetic meaning of the mask, merge and complement idioms. */
module Bits {
  import opened Words

  function And(x: nat, y: nat): (r: nat)
    ensures r <= x && r <= y
  {
    if x == 0 || y == 0 then 0
    else 2 * And(x / 2, y / 2) + (if x % 2 == 1 && y % 2 == 1 then 1 else 0)
  }

  function Or(x: nat, y: nat): (r: nat)
    ensures r >= x && r >= y
    decreases x + y
  {
    if x == 0 && y == 0 then 0
    else 2 * Or(x / 2, y / 2) + (if x % 2 == 1 || y % 2 == 1 then 1 else 0)
  }

  function Xor(x: nat, y: nat): (r: nat)
    decreases x + y
  {
    if x == 0 && y == 0 then 0
    else 2 * Xor(x / 2, y / 2) + (if x % 2 != y % 2 then 1 else 0)
  }

  /** Bit k of x, counted from the low end. */
  predicate Bit(x: nat, k: nat) {
    (x / Pow2(k)) % 2 == 1
  }

  lemma BitZero(x: nat)
    ensures Bit(x, 0) == (x % 2 == 1)
  {
    assert Pow2(0) == 1;
  }

  lemma BitStep(x: nat, k: nat)
    requires k > 0
    ensures Bit(x, k) == Bit(x / 2, k - 1)
  {
    DivDiv(x, 2, Pow2(k - 1));
  }

  lemma ModDouble(x: nat, p: nat)
    requires p > 0
    ensures x % (2 * p) == 2 * (x / 2 % p) + x % 2
  {
    var y := x / 2;
    DivMod(y, p);
    var q := y / p;
    assert q * (2 * p) == 2 * (q * p);
    DivUnique(x, 2 * p, q, 2 * (y % p) + x % 2);
  }

  lemma HalfOfMask(p: nat)
    requires p > 0
    ensures (2 * p - 1) / 2 == p - 1 && (2 * p - 1) % 2 == 1
  {
  }

  lemma {:induction false} AndMask(x: nat, k: nat)
    ensures And(x, Pow2(k) - 1) == x % Pow2(k)
  {
    hide Pow2, And;
    if k == 0 {
      NoMask(x);
    } else if x == 0 {
      MaskedZero(Pow2(k));
    } else {
      TopPower(k);
      AndMask(x / 2, k - 1);
      AndStep(x, Pow2(k - 1));
      ModDouble(x, Pow2(k - 1));
    }
  }

  lemma NoMask(x: nat)
    ensures Pow2(0) == 1 && And(x, 0) == 0 && x % 1 == 0
  {
  }

  lemma MaskedZero(p: nat)
    requires p > 0
    ensures And(0, p - 1) == 0 && 0 % p == 0
  {
    DivUnique(0, p, 0, 0);
  }

  lemma AndStep(x: nat, p: nat)
    requires x > 0 && p > 0
    ensures And(x, 2 * p - 1) == 2 * And(x / 2, p - 1) + x % 2
  {
    HalfOfMask(p);
  }

  lemma {:induction false} AndPow2(x: nat, k: nat)
    ensures And(x, Pow2(k)) == if Bit(x, k) then Pow2(k) else 0
  {
    hide And, Pow2, Bit;
    if x == 0 {
      AndNothing(Pow2(k));
      ZeroHasNoBit(k);
    } else if k == 0 {
      AndOne(x);
    } else {
      TopPower(k);
      BitStep(x, k);
      AndPow2(x / 2, k - 1);
      AndEven(x, Pow2(k - 1));
    }
  }

  lemma ZeroHasNoBit(k: nat)
    ensures !Bit(0, k)
  {
    hide Pow2;
    DivUnique(0, Pow2(k), 0, 0);
  }

  lemma AndOne(x: nat)
    ensures Pow2(0) == 1 && And(x, 1) == if Bit(x, 0) then 1 else 0
  {
    BitZero(x);
    assert And(x / 2, 0) == 0;
  }

  lemma OrDouble(x: nat, y: nat)
    ensures Or(x, 2 * y) == 2 * Or(x / 2, y) + x % 2
  {
    assert 2 * y / 2 == y && 2 * y % 2 == 0;
  }

  /** Merging a low part with a shifted high part is addition. */
  lemma {:induction false} OrDisjoint(lo: nat, hi: nat, k: nat)
    requires lo < Pow2(k)
    ensures Or(lo, hi * Pow2(k)) == lo + hi * Pow2(k)
  {
    hide Or;
    if k == 0 {
      OrZero(hi);
    } else {
      TopPower(k);
      hide Pow2;
      OrDisjoint(lo / 2, hi, k - 1);
      MulNonneg(hi, Pow2(k - 1));
      MulDouble(hi, Pow2(k - 1));
      OrDouble(lo, hi * Pow2(k - 1));
    }
  }

  lemma {:induction false} OrZero(x: nat)
    ensures Or(0, x) == x && Or(x, 0) == x
  {
    if x > 0 {
      OrZero(x / 2);
    }
  }

  lemma {:induction false} OrComm(x: nat, y: nat)
    ensures Or(x, y) == Or(y, x)
    decreases x + y
  {
    if x > 0 || y > 0 {
      OrComm(x / 2, y / 2);
    }
  }

  lemma {:induction false} AndComm(x: nat, y: nat)
    ensures And(x, y) == And(y, x)
  {
    if x > 0 && y > 0 {
      AndComm(x / 2, y / 2);
    }
  }

  lemma {:induction false} XorZero(x: nat)
    ensures Xor(x, 0) == x && Xor(0, x) == x
  {
    if x > 0 {
      XorZero(x / 2);
    }
  }

  lemma {:induction false} XorComm(x: nat, y: nat)
    ensures Xor(x, y) == Xor(y, x)
    decreases x + y
  {
    if x > 0 || y > 0 {
      XorComm(x / 2, y / 2);
    }
  }

  /** Xor with the all-ones word is the complement. */
  lemma {:induction false} XorOnes(x: nat, W: nat)
    requires x < Pow2(W)
    ensures Xor(x, Pow2(W) - 1) == Pow2(W) - 1 - x
  {
    if W > 0 {
      TopPower(W);
      hide Pow2;
      XorOnes(x / 2, W - 1);
      HalfOfMask(Pow2(W - 1));
      XorParts(x, 2 * Pow2(W - 1) - 1);
    }
  }

  lemma {:induction false} XorBound(x: nat, y: nat, W: nat)
    requires x < Pow2(W) && y < Pow2(W)
    ensures Xor(x, y) < Pow2(W)
  {
    if W > 0 {
      XorBound(x / 2, y / 2, W - 1);
    }
  }

  lemma {:induction false} OrBound(x: nat, y: nat, W: nat)
    requires x < Pow2(W) && y < Pow2(W)
    ensures Or(x, y) < Pow2(W)
  {
    if W > 0 {
      OrBound(x / 2, y / 2, W - 1);
    }
  }

  /** Xor with the same word twice gives the original back. */
  lemma {:induction false} XorCancel(x: nat, y: nat)
    ensures Xor(Xor(x, y), y) == x
    decreases x + y
  {
    if x > 0 || y > 0 {
      XorParts(x, y);
      XorParts(Xor(x, y), y);
      hide Xor;
      XorCancel(x / 2, y / 2);
    }
  }

  lemma XorParts(x: nat, y: nat)
    ensures Xor(x, y) / 2 == Xor(x / 2, y / 2) && Xor(x, y) % 2 == (if x % 2 != y % 2 then 1 else 0)
  {
  }

  lemma XorDouble(x: nat, y: nat)
    ensures Xor(x, 2 * y) == 2 * Xor(x / 2, y) + x % 2
  {
    assert 2 * y / 2 == y && 2 * y % 2 == 0;
  }

  /** Xor with a single bit adds it where it is clear and removes it where it is set. */
  lemma {:induction false} XorPow2(x: nat, k: nat)
    ensures Xor(x, Pow2(k)) == if Bit(x, k) then x - Pow2(k) else x + Pow2(k)
  {
    if k == 0 {
      XorZero(x / 2);
      BitZero(x);
    } else {
      hide Xor, Pow2, Bit;
      TopPower(k);
      BitStep(x, k);
      XorPow2(x / 2, k - 1);
      XorDouble(x, Pow2(k - 1));
    }
  }

  /** d & (d - 1) clears the lowest set bit, so it is zero exactly on powers of two. */
  lemma {:induction false} PowerOfTwoTest(d: nat)
    requires d > 0
    ensures And(d, d - 1) == 0 <==> d == Pow2(FloorLog2(d))
  {
    var h := d / 2;
    LogStep(d);
    if d > 1 {
      hide FloorLog2, Pow2;
      if d % 2 == 1 {
        assert (d - 1) / 2 == h;
        AndSelf(h);
      } else {
        assert (d - 1) / 2 == h - 1;
        AndHalves(d);
        hide And;
        PowerOfTwoTest(h);
      }
    }
  }

  lemma LogStep(d: nat)
    requires d > 0
    ensures d == 1 ==> FloorLog2(d) == 0 && Pow2(0) == 1
    ensures d > 1 ==> FloorLog2(d) > 0 && FloorLog2(d) == 1 + FloorLog2(d / 2) && Pow2(FloorLog2(d)) == 2 * Pow2(FloorLog2(d / 2))
  {
  }

  lemma AndHalves(d: nat)
    requires d > 1 && d % 2 == 0
    ensures And(d, d - 1) == 2 * And(d / 2, d / 2 - 1)
  {
    assert (d - 1) / 2 == d / 2 - 1;
  }

  lemma {:induction false} AndSelf(x: nat)
    ensures And(x, x) == x
  {
    if x > 0 {
      AndSelf(x / 2);
    }
  }

  /** A word below Pow2(k) and a multiple of Pow2(k) have no bit in common. */
  lemma {:induction false} AndDisjoint(lo: nat, hi: nat, k: nat)
    requires lo < Pow2(k)
    ensures And(lo, hi * Pow2(k)) == 0
  {
    hide And, Pow2;
    MulNonneg(hi, Pow2(k));
    if lo == 0 {
      AndNothing(hi * Pow2(k));
    } else if k == 0 {
      NoMask(lo);
    } else {
      TopPower(k);
      MulNonneg(hi, Pow2(k - 1));
      AndDisjoint(lo / 2, hi, k - 1);
      MulDouble(hi, Pow2(k - 1));
      AndEven(lo, hi * Pow2(k - 1));
    }
  }

  lemma AndNothing(y: nat)
    ensures And(0, y) == 0
  {
  }

  lemma AndEven(x: nat, y: nat)
    ensures And(x, 2 * y) == 2 * And(x / 2, y)
  {
    assert 2 * y / 2 == y && 2 * y % 2 == 0;
  }
}

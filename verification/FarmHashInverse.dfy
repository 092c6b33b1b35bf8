/** What FarmHash's word operations and turns undo: inverses of the mixers, of the turns of the long
    loop and of the paths for 8 to 64 bytes, and the strings that therefore cannot collide. */
module FarmHashInverse {
  import opened Words
  import opened Bits
  import opened FarmHash
  import Digits

  // ---------- words ----------

  /** A load is the number its bytes are, lowest first. */
  lemma {:induction false} FetchIsValue(s: seq<nat>, p: nat, n: nat)
    requires p + n <= |s|
    ensures Fetch(s, p, n) == Digits.ValueOf(8, s[p..p + n])
    decreases n
  {
    if n > 0 {
      FetchIsValue(s, p + 1, n - 1);
      Digits.ValueStep(8, s[p..p + n]);
      assert s[p..p + n][1..] == s[p + 1..p + n];
      PowerValues();
    }
  }

  lemma AddUndone(x: nat, y: nat)
    requires x < Pow2(64)
    ensures Sub(Add(x, y), y) == x && Sub(Add(y, x), y) == x
  {
    hide Pow2;
    DivMod(x + y, Pow2(64));
    var k := (x + y) / Pow2(64);
    assert (x + y) % Pow2(64) - y == x + (0 - k) * Pow2(64);
    ModAddMultiple(x, 0 - k, Pow2(64));
    DivUnique(x, Pow2(64), 0, x);
  }

  lemma SubUndone(x: nat, y: nat)
    requires x < Pow2(64)
    ensures Add(Sub(x, y), y) == x && Add(y, Sub(x, y)) == x
  {
    hide Pow2;
    var d: int := x - y;
    DivMod(d, Pow2(64));
    var k := d / Pow2(64);
    assert d % Pow2(64) + y == x + (0 - k) * Pow2(64);
    ModAddMultiple(x, 0 - k, Pow2(64));
    DivUnique(x, Pow2(64), 0, x);
  }

  /** A rotation moves the low k bits above the others. */
  lemma RotateIs(v: nat, k: nat)
    requires v < Pow2(64) && 0 < k < 64
    ensures v / Pow2(k) < Pow2(64 - k)
    ensures Rotate(v, k) == v / Pow2(k) + (v % Pow2(k)) * Pow2(64 - k) < Pow2(64)
  {
    hide Pow2, Or;
    var low, high, p, q := v % Pow2(k), v / Pow2(k), Pow2(k), Pow2(64 - k);
    Pow2Add(k, 64 - k);
    Halves(v, p, q);
    ShlIs(v, k);
    OrDisjoint(high, low, 64 - k);
    TopPart(high, low, p, q);
  }

  lemma Halves(v: int, p: int, q: int)
    requires 0 < p && 0 < q && 0 <= v < p * q
    ensures 0 <= v / p < q && v == (v / p) * p + v % p && 0 <= v % p < p
  {
    DivMod(v, p);
    if v / p >= q {
      MulMono(q, v / p, p);
      MulComm(p, q);
    }
    if v / p < 0 {
      MulMono(v / p, -1, p);
    }
  }

  lemma TopPart(high: int, low: int, p: int, q: int)
    requires 0 <= high < q && 0 <= low < p
    ensures high + low * q < p * q
  {
    MulMono(low, p - 1, q);
    assert (p - 1) * q == p * q - q;
  }

  lemma ShlIs(v: nat, k: nat)
    requires 0 < k < 64
    ensures Shl(64, v, 64 - k) == (v % Pow2(k)) * Pow2(64 - k)
  {
    hide Pow2;
    var p, q := Pow2(k), Pow2(64 - k);
    Pow2Add(k, 64 - k);
    DivMod(v, p);
    var h, low := v / p, v % p;
    MulStrict(low, p, q);
    MulNonneg(low, q);
    assert v * q == (h * p + low) * q;
    assert (h * p + low) * q == h * (p * q) + low * q;
    DivUnique(v * q, p * q, h, low * q);
  }

  /** Rotating on by the rest of the word restores it. */
  lemma RotateUndone(v: nat, k: nat)
    requires v < Pow2(64) && 0 < k < 64
    ensures Rotate(v, k) < Pow2(64) && Rotate(Rotate(v, k), 64 - k) == v
  {
    hide Pow2, Rotate;
    var r := Rotate(v, k);
    RotateIs(v, k);
    RotateIs(r, 64 - k);
    DivUnique(r, Pow2(64 - k), v % Pow2(k), v / Pow2(k));
    DivMod(v, Pow2(k));
  }

  // ---------- the weak hash ----------

  /** The seeds from the weak hash and its four words. */
  function UnWeakHash(w: nat, x: nat, y: nat, z: nat, out: (nat, nat)): (r: (nat, nat)) {
    var a1 := Sub(out.0, z);
    var a0 := Sub(Sub(a1, y), x);
    var b0 := Sub(Sub(out.1, a0), Rotate(a1, 44));
    (Sub(a0, w), Sub(Sub(Rotate(b0, 43), z), a0))
  }

  /** For fixed words the weak hash is a bijection of the seed pairs. */
  lemma WeakHashBijective(w: nat, x: nat, y: nat, z: nat, a: nat, b: nat)
    requires a < Pow2(64) && b < Pow2(64)
    ensures UnWeakHash(w, x, y, z, WeakHash(w, x, y, z, a, b)) == (a, b)
    ensures WeakHash(w, x, y, z, UnWeakHash(w, x, y, z, (a, b)).0, UnWeakHash(w, x, y, z, (a, b)).1) == (a, b)
  {
    WeakHashUndone(w, x, y, z, a, b);
    WeakHashRedone(w, x, y, z, a, b);
  }

  lemma WeakHashUndone(w: nat, x: nat, y: nat, z: nat, a: nat, b: nat)
    requires a < Pow2(64) && b < Pow2(64)
    ensures UnWeakHash(w, x, y, z, WeakHash(w, x, y, z, a, b)) == (a, b)
  {
    hide Pow2, Add, Sub, Rotate;
    var a0 := Add(a, w);
    var sum := Add(Add(b, a0), z);
    var b0 := Rotate(sum, 21);
    var a1 := Add(Add(a0, x), y);
    var b1 := Add(b0, Rotate(a1, 44));
    AddUndone(a1, z);
    AddUndone(Add(a0, x), y);
    AddUndone(a0, x);
    AddUndone(a, w);
    AddUndone(b1, a0);
    RotateUndone(sum, 21);
    AddUndone(b0, Rotate(a1, 44));
    AddUndone(Add(b, a0), z);
    AddUndone(b, a0);
  }

  lemma WeakHashRedone(w: nat, x: nat, y: nat, z: nat, c: nat, d: nat)
    requires c < Pow2(64) && d < Pow2(64)
    ensures WeakHash(w, x, y, z, UnWeakHash(w, x, y, z, (c, d)).0, UnWeakHash(w, x, y, z, (c, d)).1) == (c, d)
  {
    hide Pow2, Add, Sub, Rotate;
    var a1 := Sub(c, z);
    var a0 := Sub(Sub(a1, y), x);
    var b1 := Sub(d, a0);
    var b0 := Sub(b1, Rotate(a1, 44));
    SubUndone(a0, w);
    SubUndone(Sub(a1, y), x);
    SubUndone(a1, y);
    SubUndone(c, z);
    RotateUndone(b0, 43);
    SubUndone(Sub(Rotate(b0, 43), z), a0);
    SubUndone(Rotate(b0, 43), z);
    SubUndone(b1, Rotate(a1, 44));
    SubUndone(d, a0);
  }

  function UnWeakHashAt(s: seq<nat>, p: nat, out: (nat, nat)): (r: (nat, nat))
    requires p + 32 <= |s|
  {
    UnWeakHash(Fetch(s, p, 8), Fetch(s, p + 8, 8), Fetch(s, p + 16, 8), Fetch(s, p + 24, 8), out)
  }

  lemma WeakHashAtUndone(s: seq<nat>, p: nat, a: nat, b: nat)
    requires p + 32 <= |s| && a < Pow2(64) && b < Pow2(64)
    ensures UnWeakHashAt(s, p, WeakHashAt(s, p, a, b)) == (a, b)
  {
    hide Pow2, Fetch, WeakHash, UnWeakHash;
    WeakHashUndone(Fetch(s, p, 8), Fetch(s, p + 8, 8), Fetch(s, p + 16, 8), Fetch(s, p + 24, 8), a, b);
  }

  // ---------- the turns of the long loop ----------

  predicate AreWords(st: State) {
    && st.x < Pow2(64) && st.y < Pow2(64) && st.z < Pow2(64)
    && st.v.0 < Pow2(64) && st.v.1 < Pow2(64) && st.w.0 < Pow2(64) && st.w.1 < Pow2(64)
  }

  /** The state before a turn over the block at p, from the state after it and the old y. */
  ghost function UnRound(out: State, y: nat, s: seq<nat>, p: nat): (st: State)
    requires p + 64 <= |s|
  {
    var i := OddInverse(64, K1);
    var v1 := Mul(UnWeakHashAt(s, p, out.v).0, i);
    var w0 := Sub(UnWeakHashAt(s, p, out.v).1, out.z);
    var w1 := Sub(UnWeakHashAt(s, p + 32, out.w).0, out.x);
    var z := Sub(Rotate(Mul(out.x, i), 31), w0);
    var v0 := Sub(Sub(out.y, Mul(Rotate(Add(Add(y, v1), Fetch(s, p + 48, 8)), 42), K1)), Fetch(s, p + 40, 8));
    var x := Sub(Sub(Sub(Rotate(Mul(Xor(out.z, w1), i), 27), Fetch(s, p + 8, 8)), v0), y);
    State(x, y, z, (v0, v1), (w0, w1))
  }

  /** What a multiplication by an odd word, a rotation and an addition did to x. */
  lemma TurnUndone(x: nat, d: nat, k: nat, m: nat)
    requires x < Pow2(64) && 0 < k < 64 && m % 2 == 1
    ensures Mul(Rotate(Add(x, d), k), m) < Pow2(64)
    ensures Sub(Rotate(Mul(Mul(Rotate(Add(x, d), k), m), OddInverse(64, m)), 64 - k), d) == x
  {
    hide Pow2, Add, Sub, Mul, Rotate, OddInverse;
    InverseOf64(m);
    RotateUndone(Add(x, d), k);
    MulUndone(Rotate(Add(x, d), k), m, OddInverse(64, m));
    AddUndone(x, d);
  }

  /** The new w holds the new y a second time, with the word at p + 16 added. */
  predicate HoldsTwice(out: State, s: seq<nat>, p: nat)
    requires p + 64 <= |s|
  {
    UnWeakHashAt(s, p + 32, out.w).1 == Add(out.y, Fetch(s, p + 16, 8))
  }

  /** A turn can be undone, given the old y. */
  lemma RoundUndone(st: State, s: seq<nat>, p: nat)
    requires AreWords(st) && p + 64 <= |s|
    ensures UnRound(Round(st, s, p), st.y, s, p) == st
    ensures HoldsTwice(Round(st, s, p), s, p)
  {
    hide Pow2, Add, Sub, Mul, Rotate, Xor, Fetch, OddInverse, WeakHashAt, UnWeakHashAt;
    var i, f8, f40, f48 := OddInverse(64, K1), Fetch(s, p + 8, 8), Fetch(s, p + 40, 8), Fetch(s, p + 48, 8);
    var sum := Add(Add(Add(st.x, st.y), st.v.0), f8);
    var x1, y1 := Mul(Rotate(sum, 37), K1), Mul(Rotate(Add(Add(st.y, st.v.1), f48), 42), K1);
    var x2, y2 := Xor(x1, st.w.1), Add(y1, Add(st.v.0, f40));
    var z1 := Mul(Rotate(Add(st.z, st.w.0), 33), K1);
    var a, b := Mul(st.v.1, K1), Add(x2, st.w.0);
    WeakHashAtUndone(s, p, a, b);
    WeakHashAtUndone(s, p + 32, Add(z1, st.w.1), Add(y2, Fetch(s, p + 16, 8)));
    InverseOf64(K1);
    MulUndone(st.v.1, K1, i);
    AddUndone(st.w.0, x2);
    AddUndone(st.w.1, z1);
    TurnUndone(st.z, st.w.0, 33, K1);
    AddUndone(Add(st.v.0, f40), y1);
    AddUndone(st.v.0, f40);
    XorCancel(x1, st.w.1);
    TurnUndone(Add(Add(st.x, st.y), st.v.0), f8, 37, K1);
    AddUndone(Add(st.x, st.y), st.v.0);
    AddUndone(st.x, st.y);
  }

  /** The state before the closing turn, from the state after it, the old y and the multiplier. */
  ghost function UnClosing(out: State, y: nat, s: seq<nat>, mul: nat): (st: State)
    requires |s| >= 64
  {
    var p, i := |s| - 64, OddInverse(64, mul);
    var v1 := Mul(UnWeakHashAt(s, p, out.v).0, i);
    var w00 := Sub(UnWeakHashAt(s, p, out.v).1, out.z);
    var w1 := Sub(UnWeakHashAt(s, p + 32, out.w).0, out.x);
    var z := Sub(Rotate(Mul(out.x, i), 31), w00);
    var y1 := Mul(Rotate(Add(Add(y, v1), Fetch(s, p + 48, 8)), 42), mul);
    var v0 := Mul(Sub(Sub(out.y, y1), Fetch(s, p + 40, 8)), OddInverse(64, 9));
    var w0 := Sub(w00, v0);
    var x := Sub(Sub(Sub(Rotate(Mul(Xor(out.z, Mul(w1, 9)), i), 27), Fetch(s, p + 8, 8)), v0), y);
    State(x, y, z, (Sub(v0, w0), v1), (Sub(w0, (|s| - 1) % 64), w1))
  }

  lemma ClosingUndone(st: State, s: seq<nat>, mul: nat)
    requires AreWords(st) && |s| >= 64 && mul % 2 == 1
    ensures UnClosing(Closing(st, s, mul), st.y, s, mul) == st
    ensures HoldsTwice(Closing(st, s, mul), s, |s| - 64)
  {
    hide Pow2, Add, Sub, Mul, Rotate, Xor, Fetch, OddInverse, WeakHashAt, UnWeakHashAt;
    var p, n, i := |s| - 64, (|s| - 1) % 64, OddInverse(64, mul);
    var f8, f40, f48 := Fetch(s, p + 8, 8), Fetch(s, p + 40, 8), Fetch(s, p + 48, 8);
    var w0 := Add(st.w.0, n);
    var v0 := Add(st.v.0, w0);
    var w00 := Add(w0, v0);
    var sum := Add(Add(Add(st.x, st.y), v0), f8);
    var x1, y1 := Mul(Rotate(sum, 37), mul), Mul(Rotate(Add(Add(st.y, st.v.1), f48), 42), mul);
    var x2, y2 := Xor(x1, Mul(st.w.1, 9)), Add(y1, Add(Mul(v0, 9), f40));
    var z1 := Mul(Rotate(Add(st.z, w00), 33), mul);
    WeakHashAtUndone(s, p, Mul(st.v.1, mul), Add(x2, w00));
    WeakHashAtUndone(s, p + 32, Add(z1, st.w.1), Add(y2, Fetch(s, p + 16, 8)));
    InverseOf64(mul);
    InverseOf64(9);
    MulUndone(st.v.1, mul, i);
    AddUndone(w00, x2);
    AddUndone(st.w.1, z1);
    TurnUndone(st.z, w00, 33, mul);
    AddUndone(Add(Mul(v0, 9), f40), y1);
    AddUndone(Mul(v0, 9), f40);
    MulUndone(v0, 9, OddInverse(64, 9));
    AddUndone(w0, v0);
    AddUndone(st.v.0, w0);
    AddUndone(st.w.0, n);
    XorCancel(x1, Mul(st.w.1, 9));
    TurnUndone(Add(Add(st.x, st.y), v0), f8, 37, mul);
    AddUndone(Add(st.x, st.y), v0);
    AddUndone(st.x, st.y);
  }

  /** The multiplier is K1 plus twice the low byte. */
  lemma MultiplierIs(z: nat)
    ensures Multiplier(z) == K1 + 2 * (z % 256) && Multiplier(z) % 2 == 1
  {
    hide Pow2, And;
    PowerValues();
    AndMask(z, 8);
    PowerOne();
    WrapOfSmall(64, (z % 256) * 2);
    WrapOfSmall(64, K1 + 2 * (z % 256));
  }

  /** Two of the words that are combined, from the hash and the others. */
  lemma CombineUndone(st: State, mul: nat)
    requires AreWords(st) && mul % 2 == 1
    ensures var first := Unhash(Combine(st, mul), Add(HashLen16(st.v.1, st.w.1, mul), st.x), mul);
            && st.z == Sub(first, Add(HashLen16(st.v.0, st.w.0, mul), Mul(ShiftMix(st.y), K0)))
            && st.v.0 == Unhash(Sub(Sub(first, st.z), Mul(ShiftMix(st.y), K0)), st.w.0, mul)
  {
    hide Pow2, Add, Sub, Mul, ShiftMix, HashLen16, Unhash;
    var h, m := HashLen16(st.v.0, st.w.0, mul), Mul(ShiftMix(st.y), K0);
    var u, v := Add(Add(h, m), st.z), Add(HashLen16(st.v.1, st.w.1, mul), st.x);
    HashLen16Bijective(u, v, mul);
    AddUndone(st.z, Add(h, m));
    AddUndone(Add(h, m), st.z);
    AddUndone(h, m);
    HashLen16Bijective(st.v.0, st.w.0, mul);
  }

  lemma RoundKeepsWords(st: State, s: seq<nat>, p: nat)
    requires AreWords(st) && p + 64 <= |s|
    ensures AreWords(Round(st, s, p))
  {
    hide Pow2, Mul, Rotate, Xor, Fetch;
    var x1 := Mul(Rotate(Add(Add(Add(st.x, st.y), st.v.0), Fetch(s, p + 8, 8)), 37), K1);
    XorBound(x1, st.w.1, 64);
  }

  lemma {:induction false} RoundsAreWords(s: seq<nat>, n: nat)
    requires |s| >= 8 && 64 * n <= |s|
    ensures AreWords(Rounds(s, n))
  {
    hide Round, Mul, ShiftMix, Fetch, Add;
    if n == 0 {
    } else {
      RoundsAreWords(s, n - 1);
      RoundKeepsWords(Rounds(s, n - 1), s, 64 * (n - 1));
    }
  }

  /** Every turn of a string's run can be undone. */
  lemma RoundsUndone(s: seq<nat>, n: nat)
    requires n > 0 && 64 * n <= |s|
    ensures UnRound(Rounds(s, n), Rounds(s, n - 1).y, s, 64 * (n - 1)) == Rounds(s, n - 1)
  {
    hide Round, UnRound;
    RoundsAreWords(s, n - 1);
    RoundUndone(Rounds(s, n - 1), s, 64 * (n - 1));
  }

  // ---------- which words of a block a turn reads ----------

  lemma AddWraps(x: int, y: nat)
    ensures Add(Wrap(64, x), y) == Wrap(64, x + y)
  {
    hide Pow2;
    DivMod(x, Pow2(64));
    var k := x / Pow2(64);
    assert x + y == (x % Pow2(64) + y) + k * Pow2(64);
    ModAddMultiple(x % Pow2(64) + y, k, Pow2(64));
  }

  /** The first half of the weak hash adds the words and the first seed up. */
  lemma WeakHashSum(w: nat, x: nat, y: nat, z: nat, a: nat, b: nat)
    ensures WeakHash(w, x, y, z, a, b).0 == Wrap(64, a + w + x + y + z)
  {
    hide Pow2, Rotate, Wrap;
    AddWraps(a + w, x);
    AddWraps(a + w + x, y);
    AddWraps(a + w + x + y, z);
  }

  ghost function SumOf(s: seq<nat>, p: nat): (n: nat)
    requires p + 32 <= |s|
  {
    Fetch(s, p, 8) + Fetch(s, p + 8, 8) + Fetch(s, p + 16, 8) + Fetch(s, p + 24, 8)
  }

  lemma WeakHashAtSum(s: seq<nat>, p: nat, a: nat, b: nat)
    requires p + 32 <= |s|
    ensures WeakHashAt(s, p, a, b).0 == Wrap(64, a + SumOf(s, p))
  {
    hide Wrap, Fetch, WeakHash;
    WeakHashSum(Fetch(s, p, 8), Fetch(s, p + 8, 8), Fetch(s, p + 16, 8), Fetch(s, p + 24, 8), a, b);
  }

  /** The first words of v and w add up the two halves of the block; x does not depend on the block. */
  lemma RoundSums(st: State, s: seq<nat>, p: nat)
    requires p + 64 <= |s|
    ensures Round(st, s, p).x == Mul(Rotate(Add(st.z, st.w.0), 33), K1)
    ensures Round(st, s, p).v.0 == Wrap(64, Mul(st.v.1, K1) + SumOf(s, p))
    ensures Round(st, s, p).w.0 == Wrap(64, Add(Round(st, s, p).x, st.w.1) + SumOf(s, p + 32))
  {
    hide Pow2, Rotate, Wrap, Fetch, Mul, Add, Xor, WeakHashAt, SumOf;
    var out := Round(st, s, p);
    WeakHashAtSum(s, p, Mul(st.v.1, K1), Add(out.z, st.w.0));
    WeakHashAtSum(s, p + 32, Add(out.x, st.w.1), Add(out.y, Fetch(s, p + 16, 8)));
  }

  ghost predicate SameWord(s: seq<nat>, t: seq<nat>, p: nat) {
    p + 8 <= |s| && p + 8 <= |t| && s[p..p + 8] == t[p..p + 8]
  }

  lemma SameWordIff(s: seq<nat>, t: seq<nat>, p: nat)
    requires IsString(s) && IsString(t) && p + 8 <= |s| && p + 8 <= |t|
    ensures Fetch(s, p, 8) == Fetch(t, p, 8) <==> SameWord(s, t, p)
    ensures Fetch(s, p, 8) < Pow2(64) && Fetch(t, p, 8) < Pow2(64)
  {
    hide Fetch, Pow2;
    FetchInjective(s, t, p, 8);
    FetchBound(s, p, 8);
    FetchBound(t, p, 8);
  }

  lemma SameBlock(st: State, s: seq<nat>, t: seq<nat>, p: nat)
    requires p + 64 <= |s| && p + 64 <= |t|
    requires Fetch(s, p, 8) == Fetch(t, p, 8) && Fetch(s, p + 8, 8) == Fetch(t, p + 8, 8)
    requires Fetch(s, p + 16, 8) == Fetch(t, p + 16, 8) && Fetch(s, p + 24, 8) == Fetch(t, p + 24, 8)
    requires Fetch(s, p + 32, 8) == Fetch(t, p + 32, 8) && Fetch(s, p + 40, 8) == Fetch(t, p + 40, 8)
    requires Fetch(s, p + 48, 8) == Fetch(t, p + 48, 8) && Fetch(s, p + 56, 8) == Fetch(t, p + 56, 8)
    ensures Round(st, s, p) == Round(st, t, p)
  {
    hide Fetch, WeakHash, Add, Mul, Xor, Rotate, Pow2;
    assert p + 32 + 8 == p + 40 && p + 32 + 16 == p + 48 && p + 32 + 24 == p + 56;
  }

  lemma OneTermDiffers(c: int, x: nat, y: nat)
    requires x < Pow2(64) && y < Pow2(64)
    ensures Wrap(64, c + x) == Wrap(64, c + y) <==> x == y
  {
    hide Pow2;
    DivMod(c + x, Pow2(64));
    DivMod(c + y, Pow2(64));
    var i, j := (c + x) / Pow2(64), (c + y) / Pow2(64);
    if Wrap(64, c + x) == Wrap(64, c + y) {
      assert x - y == (i - j) * Pow2(64);
      if i != j {
        FarApart(i - j, Pow2(64));
      }
    }
  }

  lemma FarApart(k: int, p: int)
    requires k != 0 && p > 0
    ensures k * p >= p || k * p <= 0 - p
  {
    if k > 0 {
      MulMono(1, k, p);
    } else {
      MulMono(k, -1, p);
    }
  }

  /** A half block that differs in one word has another sum. */
  lemma HalfDiffers(s: seq<nat>, t: seq<nat>, p: nat, k: nat, c: nat)
    requires IsString(s) && IsString(t) && p + 32 <= |s| && p + 32 <= |t| && k < 4
    requires forall j: nat :: j < 4 ==> (SameWord(s, t, p + 8 * j) <==> j != k)
    ensures Wrap(64, c + SumOf(s, p)) != Wrap(64, c + SumOf(t, p))
  {
    hide Pow2, Wrap, Fetch, SameWord;
    forall j: nat | j < 4
      ensures Fetch(s, p + 8 * j, 8) == Fetch(t, p + 8 * j, 8) <==> j != k
    {
      SameWordIff(s, t, p + 8 * j);
    }
    SameWordIff(s, t, p + 8 * k);
    var x, y := Fetch(s, p + 8 * k, 8), Fetch(t, p + 8 * k, 8);
    var rest := SumOf(s, p) - x;
    assert p + 8 * 0 == p && p + 8 * 1 == p + 8 && p + 8 * 2 == p + 16 && p + 8 * 3 == p + 24;
    assert SumOf(t, p) == rest + y;
    OneTermDiffers(c + rest, x, y);
  }

  /** Blocks that differ in one word only lead to different states. */
  lemma RoundReadsEveryWord(st: State, s: seq<nat>, t: seq<nat>, p: nat, k: nat)
    requires IsString(s) && IsString(t) && p + 64 <= |s| && p + 64 <= |t| && k < 8
    requires forall j: nat :: j < 8 && j != k ==> SameWord(s, t, p + 8 * j)
    ensures Round(st, s, p) == Round(st, t, p) <==> SameWord(s, t, p + 8 * k)
  {
    hide Pow2, Round, Wrap, Fetch, Mul, Add, SumOf, SameWord, Rotate;
    if SameWord(s, t, p + 8 * k) {
      forall j: nat | j < 8
        ensures Fetch(s, p + 8 * j, 8) == Fetch(t, p + 8 * j, 8)
      {
        SameWordIff(s, t, p + 8 * j);
      }
      assert p + 8 * 0 == p && p + 8 * 1 == p + 8 && p + 8 * 2 == p + 16 && p + 8 * 3 == p + 24;
      assert p + 8 * 4 == p + 32 && p + 8 * 5 == p + 40 && p + 8 * 6 == p + 48 && p + 8 * 7 == p + 56;
      SameBlock(st, s, t, p);
    } else {
      RoundSums(st, s, p);
      RoundSums(st, t, p);
      if k < 4 {
        HalfDiffers(s, t, p, k, Mul(st.v.1, K1));
      } else {
        forall j: nat | j < 4
          ensures SameWord(s, t, p + 32 + 8 * j) <==> j != k - 4
        {
          assert p + 32 + 8 * j == p + 8 * (j + 4);
        }
        HalfDiffers(s, t, p + 32, k - 4, Add(Round(st, s, p).x, st.w.1));
      }
    }
  }

  /** Of the block, z reads the word at p + 8 only, and y the words at p + 40 and p + 48 only. */
  lemma RoundReads(st: State, s: seq<nat>, t: seq<nat>, p: nat)
    requires IsString(s) && IsString(t) && p + 64 <= |s| && p + 64 <= |t|
    ensures Round(st, s, p).x == Round(st, t, p).x
    ensures Round(st, s, p).z == Round(st, t, p).z <==> SameWord(s, t, p + 8)
    ensures SameWord(s, t, p + 40) ==> (Round(st, s, p).y == Round(st, t, p).y <==> SameWord(s, t, p + 48))
    ensures SameWord(s, t, p + 48) ==> (Round(st, s, p).y == Round(st, t, p).y <==> SameWord(s, t, p + 40))
  {
    hide Pow2, Rotate, Fetch, Mul, Add, Sub, Xor, WeakHashAt, SameWord, OddInverse;
    SameWordIff(s, t, p + 8);
    SameWordIff(s, t, p + 40);
    SameWordIff(s, t, p + 48);
    var c, d := Add(Add(st.x, st.y), st.v.0), Add(st.y, st.v.1);
    var f8, g8 := Fetch(s, p + 8, 8), Fetch(t, p + 8, 8);
    TurnInjective(f8, g8, c, 37, K1);
    XorCancel(Mul(Rotate(Add(c, f8), 37), K1), st.w.1);
    XorCancel(Mul(Rotate(Add(c, g8), 37), K1), st.w.1);
    var f48, g48 := Fetch(s, p + 48, 8), Fetch(t, p + 48, 8);
    TurnInjective(f48, g48, d, 42, K1);
    var y1, y1' := Mul(Rotate(Add(d, f48), 42), K1), Mul(Rotate(Add(d, g48), 42), K1);
    var f40, g40 := Add(st.v.0, Fetch(s, p + 40, 8)), Add(st.v.0, Fetch(t, p + 40, 8));
    AddUndone(Fetch(s, p + 40, 8), st.v.0);
    AddUndone(Fetch(t, p + 40, 8), st.v.0);
    AddUndone(y1, f40);
    AddUndone(y1', f40);
    AddUndone(f40, y1);
    AddUndone(g40, y1);
  }

  lemma TurnInjective(x: nat, y: nat, c: nat, k: nat, m: nat)
    requires x < Pow2(64) && y < Pow2(64) && 0 < k < 64 && m % 2 == 1
    ensures Mul(Rotate(Add(c, x), k), m) < Pow2(64)
    ensures Mul(Rotate(Add(c, x), k), m) == Mul(Rotate(Add(c, y), k), m) <==> x == y
  {
    assert Add(x, c) == Add(c, x) && Add(y, c) == Add(c, y);
    hide Pow2, Rotate, Mul, Add, Sub, OddInverse;
    TurnUndone(x, c, k, m);
    TurnUndone(y, c, k, m);
  }

  // ---------- the paths for up to 64 bytes ----------

  lemma PrefixWord(s: seq<nat>, t: seq<nat>, n: nat, p: nat)
    requires IsString(s) && IsString(t) && p + 8 <= n <= |s| && n <= |t| && s[..n] == t[..n]
    ensures Fetch(s, p, 8) == Fetch(t, p, 8)
  {
    hide Fetch;
    assert s[p..p + 8] == s[..n][p..p + 8] && t[p..p + 8] == t[..n][p..p + 8];
    FetchInjective(s, t, p, 8);
  }

  lemma SuffixWord(s: seq<nat>, t: seq<nat>, n: nat, p: nat)
    requires IsString(s) && IsString(t) && n <= p && p + 8 <= |s| == |t| && s[n..] == t[n..]
    ensures Fetch(s, p, 8) == Fetch(t, p, 8)
  {
    hide Fetch;
    assert s[p..p + 8] == s[n..][p - n..p - n + 8] && t[p..p + 8] == t[n..][p - n..p - n + 8];
    FetchInjective(s, t, p, 8);
  }

  lemma EmptyHash()
    ensures Hash64([]) == 0x9ae16a3b2f90404f
  {
  }

  /** The first and the middle byte of 1 to 3 bytes from the hash, the length and the last byte. */
  lemma Hash1To3Undone(s: seq<nat>)
    requires IsString(s) && 1 <= |s| <= 3
    ensures var i, z := OddInverse(64, K2), Mul(|s| + 4 * s[|s| - 1], K0);
            s[0] + 256 * s[|s| / 2] == Mul(Xor(ShiftMix(Mul(Hash64(s), i)), z), i)
  {
    hide Pow2, Mul, ShiftMix, Xor, OddInverse;
    PowerValues();
    InverseOf64(K2);
    Mix1To3Undone(s[0] + s[|s| / 2] * 256, Mul(|s| + s[|s| - 1] * 4, K0), K2, OddInverse(64, K2));
  }

  /** The second argument of the last mix for 8 to 16 bytes, and the first word from it and the hash. */
  function Second8To16(first: nat, last: nat, len: nat): (d: nat) {
    Mul(Add(Rotate(Add(first, K2), 25), last), Add(K2, len * 2))
  }

  ghost function Word8To16(h: nat, d: nat, last: nat, len: nat): (word: nat) {
    var mul := Add(K2, len * 2);
    Sub(Sub(Unhash(h, d, mul), Mul(Rotate(last, 37), mul)), K2)
  }

  lemma Hash8To16Undone(s: seq<nat>)
    requires IsString(s) && 8 <= |s| <= 16
    ensures var first, last := Fetch(s, 0, 8), Fetch(s, |s| - 8, 8);
            first == Word8To16(Hash64(s), Second8To16(first, last, |s|), last, |s|)
  {
    hide Pow2, Rotate, Fetch, Mul, Add, Sub, HashLen16, Unhash;
    var len := |s|;
    var mul, first, last := Add(K2, len * 2), Fetch(s, 0, 8), Fetch(s, len - 8, 8);
    var a := Add(first, K2);
    var b := Mul(Rotate(last, 37), mul);
    OddMultiplier(len);
    HashLen16Bijective(Add(b, a), Second8To16(first, last, len), mul);
    AddUndone(a, b);
    FetchBound(s, 0, 8);
    AddUndone(first, K2);
  }

  /** Strings of 8 to 16 bytes of one length with the same second argument and one end in common are equal;
      with the same second argument and the same hash, the last word determines the first. */
  lemma NoCollision8To16(s: seq<nat>, t: seq<nat>)
    requires IsString(s) && IsString(t) && 8 <= |s| == |t| <= 16
    requires Second8To16(Fetch(s, 0, 8), Fetch(s, |s| - 8, 8), |s|)
             == Second8To16(Fetch(t, 0, 8), Fetch(t, |s| - 8, 8), |s|)
    ensures SameWord(s, t, 0) || SameWord(s, t, |s| - 8) ==> s == t
    ensures Hash64(s) == Hash64(t)
            <==> var mul := Add(K2, |s| * 2);
                 Add(Mul(Rotate(Fetch(s, |s| - 8, 8), 37), mul), Add(Fetch(s, 0, 8), K2))
                 == Add(Mul(Rotate(Fetch(t, |s| - 8, 8), 37), mul), Add(Fetch(t, 0, 8), K2))
  {
    hide Pow2, Rotate, Fetch, Mul, Add, Sub, HashLen16, Unhash, OddInverse, SameWord;
    var len := |s|;
    var mul, i := Add(K2, len * 2), OddInverse(64, Add(K2, len * 2));
    var f, f', l, l' := Fetch(s, 0, 8), Fetch(t, 0, 8), Fetch(s, len - 8, 8), Fetch(t, len - 8, 8);
    OddMultiplier(len);
    HashLen16Injective(Add(Mul(Rotate(l, 37), mul), Add(f, K2)), Add(Mul(Rotate(l', 37), mul), Add(f', K2)),
                       Second8To16(f, l, len), mul);
    SameWordIff(s, t, 0);
    SameWordIff(s, t, len - 8);
    InverseOf64(mul);
    var r, r' := Rotate(Add(f, K2), 25), Rotate(Add(f', K2), 25);
    MulUndone(Add(r, l), mul, i);
    MulUndone(Add(r', l'), mul, i);
    AddUndone(l, r);
    AddUndone(l', r);
    RotateUndone(Add(f, K2), 25);
    RotateUndone(Add(f', K2), 25);
    AddUndone(r, l);
    AddUndone(r', l);
    AddUndone(f, K2);
    AddUndone(f', K2);
    if SameWord(s, t, 0) || SameWord(s, t, len - 8) {
      assert SameWord(s, t, 0) && SameWord(s, t, len - 8);
      Rejoined8To16(s, t);
    }
  }

  lemma Rejoined8To16(s: seq<nat>, t: seq<nat>)
    requires 8 <= |s| == |t| <= 16 && SameWord(s, t, 0) && SameWord(s, t, |s| - 8)
    ensures s == t
  {
    var len := |s|;
    forall i | 0 <= i < len
      ensures s[i] == t[i]
    {
      if i < 8 {
        assert s[i] == s[0..8][i] && t[i] == t[0..8][i];
      } else {
        assert s[i] == s[len - 8..len][i - (len - 8)] && t[i] == t[len - 8..len][i - (len - 8)];
      }
    }
  }

  /** The word at len - 16 from the hash and the other words. */
  ghost function Word17To32(h: nat, first: nat, second: nat, last: nat, len: nat): (word: nat) {
    var mul := Add(K2, len * 2);
    var a, c := Mul(first, K1), Mul(last, mul);
    var u := Unhash(h, Add(Add(a, Rotate(Add(second, K2), 18)), c), mul);
    Mul(Sub(u, Add(Rotate(Add(a, second), 43), Rotate(c, 30))), OddInverse(64, K2))
  }

  lemma Hash17To32Undone(s: seq<nat>)
    requires IsString(s) && 17 <= |s| <= 32
    ensures Fetch(s, |s| - 16, 8)
            == Word17To32(Hash64(s), Fetch(s, 0, 8), Fetch(s, 8, 8), Fetch(s, |s| - 8, 8), |s|)
  {
    hide Pow2, Rotate, Fetch, Mul, Add, Sub, HashLen16, Unhash, OddInverse;
    var len, x := |s|, Fetch(s, |s| - 16, 8);
    var mul := Add(K2, len * 2);
    var a, b, c := Mul(Fetch(s, 0, 8), K1), Fetch(s, 8, 8), Mul(Fetch(s, len - 8, 8), mul);
    var r, d := Add(Rotate(Add(a, b), 43), Rotate(c, 30)), Mul(x, K2);
    OddMultiplier(len);
    HashLen16Bijective(Add(r, d), Add(Add(a, Rotate(Add(b, K2), 18)), c), mul);
    AddUndone(d, r);
    FetchBound(s, len - 16, 8);
    InverseOf64(K2);
    MulUndone(x, K2, OddInverse(64, K2));
  }

  /** Strings of 17 to 32 bytes of one length that agree in the first 16 and the last 8 bytes never collide. */
  lemma NoCollision17To32(s: seq<nat>, t: seq<nat>)
    requires IsString(s) && IsString(t) && 17 <= |s| == |t| <= 32
    requires s[..16] == t[..16] && s[|s| - 8..] == t[|s| - 8..]
    ensures Hash64(s) == Hash64(t) <==> s == t
  {
    hide Pow2, Fetch, Hash64, Word17To32;
    var len := |s|;
    Hash17To32Undone(s);
    Hash17To32Undone(t);
    PrefixWord(s, t, 16, 0);
    PrefixWord(s, t, 16, 8);
    SuffixWord(s, t, len - 8, len - 8);
    FetchInjective(s, t, len - 16, 8);
    if Hash64(s) == Hash64(t) {
      Rejoined17To32(s, t);
    }
  }

  lemma Rejoined17To32(s: seq<nat>, t: seq<nat>)
    requires 17 <= |s| == |t| <= 32 && s[..16] == t[..16] && s[|s| - 8..] == t[|s| - 8..]
    requires s[|s| - 16..|s| - 16 + 8] == t[|s| - 16..|s| - 16 + 8]
    ensures s == t
  {
    var len := |s|;
    forall i | 0 <= i < len
      ensures s[i] == t[i]
    {
      if i < 16 {
        assert s[i] == s[..16][i] && t[i] == t[..16][i];
      } else if i >= len - 8 {
        assert s[i] == s[len - 8..][i - (len - 8)] && t[i] == t[len - 8..][i - (len - 8)];
      } else {
        assert s[i] == s[len - 16..len - 16 + 8][i - (len - 16)] && t[i] == t[len - 16..len - 16 + 8][i - (len - 16)];
      }
    }
  }

  /** The word at len - 24 from the hash and the other words, the first four and the last three of them. */
  ghost function Word33To64(h: nat, w0: nat, w8: nat, w16: nat, w24: nat, l32: nat, l16: nat, l8: nat, len: nat)
    : (word: nat)
  {
    var mul := Add(K2, len * 2);
    var a, c := Mul(w0, K2), Mul(l8, mul);
    var y := Add(Add(Rotate(Add(a, w8), 43), Rotate(c, 30)), Mul(l16, K2));
    var z := HashLen16(y, Add(Add(a, Rotate(Add(w8, K2), 18)), c), mul);
    var e, g := Mul(w16, mul), Mul(Add(y, l32), mul);
    var u := Unhash(h, Add(Add(e, Rotate(Add(w24, a), 18)), g), mul);
    Sub(Mul(Sub(u, Add(Rotate(Add(e, w24), 43), Rotate(g, 30))), OddInverse(64, mul)), z)
  }

  lemma Hash33To64Undone(s: seq<nat>)
    requires IsString(s) && 33 <= |s| <= 64
    ensures Fetch(s, |s| - 24, 8)
            == Word33To64(Hash64(s), Fetch(s, 0, 8), Fetch(s, 8, 8), Fetch(s, 16, 8), Fetch(s, 24, 8),
                          Fetch(s, |s| - 32, 8), Fetch(s, |s| - 16, 8), Fetch(s, |s| - 8, 8), |s|)
  {
    hide Pow2, Rotate, Fetch, Mul, Add, Sub, HashLen16, Unhash, OddInverse;
    var len, x := |s|, Fetch(s, |s| - 24, 8);
    var mul := Add(K2, len * 2);
    var a, c := Mul(Fetch(s, 0, 8), K2), Mul(Fetch(s, len - 8, 8), mul);
    var b, f := Fetch(s, 8, 8), Fetch(s, 24, 8);
    var y := Add(Add(Rotate(Add(a, b), 43), Rotate(c, 30)), Mul(Fetch(s, len - 16, 8), K2));
    var z := HashLen16(y, Add(Add(a, Rotate(Add(b, K2), 18)), c), mul);
    var e, g := Mul(Fetch(s, 16, 8), mul), Mul(Add(y, Fetch(s, len - 32, 8)), mul);
    var r, h := Add(Rotate(Add(e, f), 43), Rotate(g, 30)), Mul(Add(z, x), mul);
    OddMultiplier(len);
    HashLen16Bijective(Add(r, h), Add(Add(e, Rotate(Add(f, a), 18)), g), mul);
    AddUndone(h, r);
    InverseOf64(mul);
    MulUndone(Add(z, x), mul, OddInverse(64, mul));
    FetchBound(s, len - 24, 8);
    AddUndone(x, z);
  }

  /** Strings of 33 to 64 bytes of one length that agree outside the eight bytes at len - 24, and in the
      first 32 bytes, never collide. From 56 bytes on the first 32 bytes are outside anyway. */
  lemma NoCollision33To64(s: seq<nat>, t: seq<nat>)
    requires IsString(s) && IsString(t) && 33 <= |s| == |t| <= 64
    requires s[..32] == t[..32] && s[|s| - 32..|s| - 24] == t[|s| - 32..|s| - 24] && s[|s| - 16..] == t[|s| - 16..]
    ensures Hash64(s) == Hash64(t) <==> s == t
  {
    hide Pow2, Fetch, Hash64, Word33To64;
    var len := |s|;
    Hash33To64Undone(s);
    Hash33To64Undone(t);
    PrefixWord(s, t, 32, 0);
    PrefixWord(s, t, 32, 8);
    PrefixWord(s, t, 32, 16);
    PrefixWord(s, t, 32, 24);
    SuffixWord(s, t, len - 16, len - 16);
    SuffixWord(s, t, len - 16, len - 8);
    FetchInjective(s, t, len - 32, 8);
    FetchInjective(s, t, len - 24, 8);
    if Hash64(s) == Hash64(t) {
      Rejoined33To64(s, t);
    }
  }

  lemma Rejoined33To64(s: seq<nat>, t: seq<nat>)
    requires 33 <= |s| == |t| <= 64 && s[..32] == t[..32] && s[|s| - 16..] == t[|s| - 16..]
    requires s[|s| - 32..|s| - 24] == t[|s| - 32..|s| - 24]
    requires s[|s| - 24..|s| - 24 + 8] == t[|s| - 24..|s| - 24 + 8]
    ensures s == t
  {
    var len := |s|;
    forall i | 0 <= i < len
      ensures s[i] == t[i]
    {
      if i < 32 {
        assert s[i] == s[..32][i] && t[i] == t[..32][i];
      } else if i >= len - 16 {
        assert s[i] == s[len - 16..][i - (len - 16)] && t[i] == t[len - 16..][i - (len - 16)];
      } else if i >= len - 24 {
        assert s[i] == s[len - 24..len - 24 + 8][i - (len - 24)] && t[i] == t[len - 24..len - 24 + 8][i - (len - 24)];
      } else {
        assert s[i] == s[len - 32..len - 24][i - (len - 32)] && t[i] == t[len - 32..len - 24][i - (len - 32)];
      }
    }
  }

  // ---------- long strings and seeds ----------

  /** The state before the first block: the first word is in x, the rest is fixed. */
  lemma InitialState(s: seq<nat>)
    requires IsString(s) && |s| >= 8
    ensures var st := Initial(s);
            && Sub(st.x, Mul(81, K2)) == Fetch(s, 0, 8)
            && st.y == 2480279821605975764 && st.v == (0, 0) && st.w == (0, 0)
            && ShiftMix(Mul(st.z, OddInverse(64, K2))) == Add(Mul(st.y, K2), 113)
  {
    hide Pow2, Fetch, Sub, ShiftMix, OddInverse, Add, Mul;
    InitialY();
    FetchBound(s, 0, 8);
    AddUndone(Fetch(s, 0, 8), Mul(81, K2));
    var y := Add(Mul(81, K1), 113);
    var m := Add(Mul(y, K2), 113);
    InverseOf64(K2);
    ShiftMixInvolution(m);
    MulUndone(ShiftMix(m), K2, OddInverse(64, K2));
  }

  lemma InitialY()
    ensures Add(Mul(81, K1), 113) == 2480279821605975764
  {
    hide Pow2;
    PowerValues();
  }

  /** What the hash of a long string is made of can be taken apart again: the closing turn gives back the
      state after the blocks, and the combination gives back two of its words. */
  lemma LongHashUndone(s: seq<nat>, st: State, mul: nat, out: State)
    requires |s| > 64 && st == Rounds(s, (|s| - 1) / 64) && mul == K1 + 2 * (st.z % 256)
    requires out == Closing(st, s, mul)
    ensures UnClosing(out, st.y, s, mul) == st
    ensures var first := Unhash(Hash64(s), Add(HashLen16(out.v.1, out.w.1, mul), out.x), mul);
            && out.z == Sub(first, Add(HashLen16(out.v.0, out.w.0, mul), Mul(ShiftMix(out.y), K0)))
            && out.v.0 == Unhash(Sub(Sub(first, out.z), Mul(ShiftMix(out.y), K0)), out.w.0, mul)
  {
    hide Pow2, Add, Sub, Mul, ShiftMix, HashLen16, Unhash, UnClosing, Rounds, Closing, Combine, Multiplier;
    RoundsAreWords(s, (|s| - 1) / 64);
    MultiplierIs(st.z);
    ClosingUndone(st, s, mul);
    ClosingKeepsWords(st, s, mul);
    CombineUndone(out, mul);
  }

  lemma ClosingKeepsWords(st: State, s: seq<nat>, mul: nat)
    requires AreWords(st) && |s| >= 64
    ensures AreWords(Closing(st, s, mul))
  {
    hide Pow2, Mul, Rotate, Xor, Fetch;
    var v0 := Add(st.v.0, Add(st.w.0, (|s| - 1) % 64));
    var x1 := Mul(Rotate(Add(Add(Add(st.x, st.y), v0), Fetch(s, |s| - 64 + 8, 8)), 37), mul);
    XorBound(x1, Mul(st.w.1, 9), 64);
  }

  /** The plain hash from the seeded ones and the seeds. */
  lemma SeedsUndone(s: seq<nat>, seed0: nat, seed1: nat)
    requires seed0 < Pow2(64) && seed1 < Pow2(64)
    ensures Hash64(s) == Add(Unhash(Hash64WithSeeds(s, seed0, seed1), seed1, 0x9ddfea08eb382d69), seed0)
    ensures Hash64(s) == Add(Unhash(Hash64WithSeed(s, seed1), seed1, 0x9ddfea08eb382d69), 0x9ae16a3b2f90404f)
  {
    hide Pow2, Hash64, HashLen16, Unhash, Add, Sub;
    Hash64IsWord(s);
    HashLen16Bijective(Sub(Hash64(s), seed0), seed1, K_MUL);
    HashLen16Bijective(Sub(Hash64(s), K2), seed1, K_MUL);
    SubUndone(Hash64(s), seed0);
    SubUndone(Hash64(s), K2);
  }
}

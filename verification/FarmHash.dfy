/** FarmHash's farmhashna hash of byte strings and its seeded forms. */
module FarmHash {
  import opened Words
  import opened Bits

  const K0: nat := 0xc3a5c85c97cb3127
  const K1: nat := 0xb492b66fbe98f273
  const K2: nat := 0x9ae16a3b2f90404f
  const K_MUL: nat := 0x9ddfea08eb382d69
  const SEED: nat := 81

  // ---------- 64-bit words ----------

  function Add(x: nat, y: nat): (r: nat)
    ensures r < Pow2(64)
  {
    Wrap(64, x + y)
  }

  function Mul(x: nat, y: nat): (r: nat)
    ensures r < Pow2(64)
  {
    Wrap(64, x * y)
  }

  function Sub(x: nat, y: nat): (r: nat)
    ensures r < Pow2(64)
  {
    Wrap(64, x - y)
  }

  function Rotate(v: nat, shift: nat): (r: nat)
    requires shift <= 64
  {
    if shift == 0 then v else Or(Shr(v, shift), Shl(64, v, 64 - shift))
  }

  function ShiftMix(v: nat): (r: nat) {
    Xor(v, Shr(v, 47))
  }

  /** Little-endian load of n bytes. */
  function Fetch(s: seq<nat>, p: nat, n: nat): (r: nat)
    requires p + n <= |s|
    decreases n
  {
    if n == 0 then 0 else s[p] + 256 * Fetch(s, p + 1, n - 1)
  }

  // ---------- the mixers ----------

  /** HashLen16 with a multiplier. */
  function HashLen16(u: nat, v: nat, mul: nat): (r: nat)
    ensures r < Pow2(64)
  {
    var a := ShiftMix(Mul(Xor(u, v), mul));
    var b := ShiftMix(Mul(Xor(v, a), mul));
    Mul(b, mul)
  }

  function Hash128To64(low: nat, high: nat): (r: nat)
    ensures r < Pow2(64)
  {
    HashLen16(low, high, K_MUL)
  }

  // ---------- undoing the mixers ----------

  /** The inverse of an odd number modulo Pow2(W), one bit at a time. */
  ghost function OddInverse(W: nat, m: nat): (i: nat) {
    if W <= 1 then 1
    else
      var i := OddInverse(W - 1, m);
      if (m * i) % Pow2(W) == 1 then i else i + Pow2(W - 1)
  }

  lemma {:induction false} OddInverseWorks(W: nat, m: nat)
    requires m % 2 == 1 && W > 0
    ensures (m * OddInverse(W, m)) % Pow2(W) == 1
  {
    PowerOne();
    if W > 1 {
      hide Pow2;
      OddInverseWorks(W - 1, m);
      var i := OddInverse(W - 1, m);
      Pow2Mono(1, W - 1);
      TopPower(W);
      if (m * i) % Pow2(W) != 1 {
        LiftInverse(m, i, Pow2(W - 1));
      }
    }
  }

  /** An inverse modulo p that is none modulo 2p becomes one by adding p. */
  lemma LiftInverse(m: int, i: int, p: int)
    requires p >= 2 && m % 2 == 1 && (m * i) % p == 1 && (m * i) % (2 * p) != 1
    ensures (m * (i + p)) % (2 * p) == 1
  {
    DivMod(m * i, p);
    assert m * (i + p) == m * i + m * p;
    LiftStep(m, m * i, (m * i) / p, m * p, p);
  }

  lemma LiftStep(m: int, x: int, q: int, mp: int, p: int)
    requires p >= 2 && m % 2 == 1 && x == q * p + 1 && mp == m * p && x % (2 * p) != 1
    ensures (x + mp) % (2 * p) == 1
  {
    if q % 2 == 0 {
      EvenMultiple(q, p);
      DivUnique(x, 2 * p, q / 2, 1);
    } else {
      EvenMultiple(q + m, p);
      assert (q + m) * p == q * p + mp;
      DivUnique(x + mp, 2 * p, (q + m) / 2, 1);
    }
  }

  lemma EvenMultiple(q: int, p: int)
    requires q % 2 == 0
    ensures q * p == (q / 2) * (2 * p)
  {
    var h := q / 2;
    assert (2 * h) * p == h * (2 * p);
  }

  /** Multiplying by an odd word and by its inverse cancel, in either order. */
  lemma MulUndone(x: nat, m: nat, i: nat)
    requires x < Pow2(64) && (m * i) % Pow2(64) == 1
    ensures Mul(Mul(x, m), i) == x
  {
    hide Pow2;
    ModUndone(x, m, i, Pow2(64));
  }

  lemma ModUndone(x: int, m: int, i: int, p: int)
    requires 0 <= x < p && (m * i) % p == 1
    ensures ((x * m) % p * i) % p == x
  {
    DivMod(x * m, p);
    DivMod(m * i, p);
    var q, e := (x * m) / p, (m * i) / p;
    assert (x * m) % p * i == (x * m) * i - (q * p) * i;
    assert (x * m) * i == x * (m * i);
    assert x * (m * i) == x * (e * p + 1);
    assert x * (e * p + 1) - (q * p) * i == x + (x * e - q * i) * p;
    ModAddMultiple(x, x * e - q * i, p);
    DivUnique(x, p, 0, x);
  }

  /** Shifts distribute over exclusive or. */
  lemma {:induction false} ShrXor(x: nat, y: nat, k: nat)
    ensures Shr(Xor(x, y), k) == Xor(Shr(x, k), Shr(y, k))
  {
    if k == 0 {
      assert Pow2(0) == 1;
    } else {
      XorHalf(x, y);
      ShrStep(Xor(x, y), k);
      ShrStep(x, k);
      ShrStep(y, k);
      ShrXor(x / 2, y / 2, k - 1);
    }
  }

  lemma ShrStep(x: nat, k: nat)
    requires k > 0
    ensures Shr(x, k) == Shr(x / 2, k - 1)
  {
    DivDiv(x, 2, Pow2(k - 1));
  }

  lemma XorHalf(x: nat, y: nat)
    ensures Xor(x, y) / 2 == Xor(x / 2, y / 2)
  {
    if x == 0 && y == 0 {
    }
  }

  /** A shift by more than half the word makes the mix its own inverse. */
  lemma ShiftMixInvolution(v: nat)
    requires v < Pow2(64)
    ensures ShiftMix(v) < Pow2(64) && ShiftMix(ShiftMix(v)) == v
  {
    var t := Shr(v, 47);
    assert Shr(t, 47) == 0 by { ShiftedOut(v); }
    hide Pow2, Shr, Xor;
    XorBound(v, t, 64);
    ShrXor(v, t, 47);
    XorZero(t);
    XorCancel(v, t);
  }

  lemma ShiftedOut(v: nat)
    requires v < Pow2(64)
    ensures Shr(Shr(v, 47), 47) == 0
  {
    hide Pow2;
    Pow2Add(47, 47);
    Pow2Mono(64, 94);
    DivDiv(v, Pow2(47), Pow2(47));
    DivUnique(v, Pow2(94), 0, v);
  }

  /** The first argument of HashLen16 from its result. */
  ghost function Unhash(h: nat, v: nat, mul: nat): (u: nat) {
    var i := OddInverse(64, mul);
    var b := ShiftMix(Mul(h, i));
    var a := Xor(Mul(b, i), v);
    Xor(Mul(ShiftMix(a), i), v)
  }

  lemma InverseOf64(mul: nat)
    requires mul % 2 == 1
    ensures (mul * OddInverse(64, mul)) % Pow2(64) == 1 && (OddInverse(64, mul) * mul) % Pow2(64) == 1
  {
    hide Pow2;
    OddInverseWorks(64, mul);
  }

  lemma PowerOne()
    ensures Pow2(1) == 2
  {
  }

  /** For a fixed second argument and odd multiplier, HashLen16 is a bijection of the 64-bit words. */
  lemma HashLen16Bijective(u: nat, v: nat, mul: nat)
    requires u < Pow2(64) && v < Pow2(64) && mul % 2 == 1
    ensures Unhash(HashLen16(u, v, mul), v, mul) == u
    ensures Unhash(u, v, mul) < Pow2(64) && HashLen16(Unhash(u, v, mul), v, mul) == u
  {
    Unmixed(u, v, mul);
    Remixed(u, v, mul);
  }

  lemma Unmixed(u: nat, v: nat, mul: nat)
    requires u < Pow2(64) && v < Pow2(64) && mul % 2 == 1
    ensures Unhash(HashLen16(u, v, mul), v, mul) == u
  {
    hide Pow2, Mul, ShiftMix, Xor, OddInverse;
    InverseOf64(mul);
    var i := OddInverse(64, mul);
    XorBound(u, v, 64);
    MulUndone(Xor(u, v), mul, i);
    ShiftMixInvolution(Mul(Xor(u, v), mul));
    var a := ShiftMix(Mul(Xor(u, v), mul));
    XorBound(v, a, 64);
    MulUndone(Xor(v, a), mul, i);
    ShiftMixInvolution(Mul(Xor(v, a), mul));
    MulUndone(ShiftMix(Mul(Xor(v, a), mul)), mul, i);
    XorComm(v, a);
    XorCancel(a, v);
    XorCancel(u, v);
  }

  lemma Remixed(h: nat, v: nat, mul: nat)
    requires h < Pow2(64) && v < Pow2(64) && mul % 2 == 1
    ensures Unhash(h, v, mul) < Pow2(64) && HashLen16(Unhash(h, v, mul), v, mul) == h
  {
    hide Pow2, Mul, ShiftMix, Xor, OddInverse;
    InverseOf64(mul);
    var i := OddInverse(64, mul);
    var b := ShiftMix(Mul(h, i));
    ShiftMixInvolution(Mul(h, i));
    var a := Xor(Mul(b, i), v);
    XorBound(Mul(b, i), v, 64);
    ShiftMixInvolution(a);
    var u := Xor(Mul(ShiftMix(a), i), v);
    XorBound(Mul(ShiftMix(a), i), v, 64);
    XorCancel(Mul(ShiftMix(a), i), v);
    MulUndone(ShiftMix(a), i, mul);
    XorComm(v, a);
    XorCancel(Mul(b, i), v);
    MulUndone(b, i, mul);
    MulUndone(h, i, mul);
  }

  lemma HashLen16Injective(u: nat, u': nat, v: nat, mul: nat)
    requires u < Pow2(64) && u' < Pow2(64) && v < Pow2(64) && mul % 2 == 1
    ensures HashLen16(u, v, mul) == HashLen16(u', v, mul) <==> u == u'
  {
    hide Pow2, HashLen16, Unhash;
    HashLen16Bijective(u, v, mul);
    HashLen16Bijective(u', v, mul);
  }

  // ---------- hashing strings ----------

  ghost predicate IsString(s: seq<nat>) {
    |s| < Pow2(64) && forall i :: 0 <= i < |s| ==> s[i] < 256
  }

  function HashLen0To16(s: seq<nat>): (r: nat)
    requires |s| <= 16
  {
    var len := |s|;
    if len >= 8 then
      var mul := Add(K2, len * 2);
      var a := Add(Fetch(s, 0, 8), K2);
      var b := Fetch(s, len - 8, 8);
      var c := Add(Mul(Rotate(b, 37), mul), a);
      var d := Mul(Add(Rotate(a, 25), b), mul);
      HashLen16(c, d, mul)
    else if len >= 4 then
      var mul := Add(K2, len * 2);
      HashLen16(Add(len, Shl(64, Fetch(s, 0, 4), 3)), Fetch(s, len - 4, 4), mul)
    else if len > 0 then
      var y := s[0] + s[len / 2] * 256;
      var z := len + s[len - 1] * 4;
      Mul(ShiftMix(Xor(Mul(y, K2), Mul(z, K0))), K2)
    else K2
  }

  function HashLen17To32(s: seq<nat>): (r: nat)
    requires 16 < |s| <= 32
  {
    var len := |s|;
    var mul := Add(K2, len * 2);
    var a := Mul(Fetch(s, 0, 8), K1);
    var b := Fetch(s, 8, 8);
    var c := Mul(Fetch(s, len - 8, 8), mul);
    var d := Mul(Fetch(s, len - 16, 8), K2);
    HashLen16(Add(Add(Rotate(Add(a, b), 43), Rotate(c, 30)), d), Add(Add(a, Rotate(Add(b, K2), 18)), c), mul)
  }

  function WeakHash(w: nat, x: nat, y: nat, z: nat, a: nat, b: nat): (r: (nat, nat)) {
    var a0 := Add(a, w);
    var b0 := Rotate(Add(Add(b, a0), z), 21);
    var a1 := Add(Add(a0, x), y);
    var b1 := Add(b0, Rotate(a1, 44));
    (Add(a1, z), Add(b1, a0))
  }

  function WeakHashAt(s: seq<nat>, p: nat, a: nat, b: nat): (r: (nat, nat))
    requires p + 32 <= |s|
  {
    WeakHash(Fetch(s, p, 8), Fetch(s, p + 8, 8), Fetch(s, p + 16, 8), Fetch(s, p + 24, 8), a, b)
  }

  function HashLen33To64(s: seq<nat>): (r: nat)
    requires 32 < |s| <= 64
  {
    var len := |s|;
    var mul := Add(K2, len * 2);
    var a := Mul(Fetch(s, 0, 8), K2);
    var b := Fetch(s, 8, 8);
    var c := Mul(Fetch(s, len - 8, 8), mul);
    var d := Mul(Fetch(s, len - 16, 8), K2);
    var y := Add(Add(Rotate(Add(a, b), 43), Rotate(c, 30)), d);
    var z := HashLen16(y, Add(Add(a, Rotate(Add(b, K2), 18)), c), mul);
    var e := Mul(Fetch(s, 16, 8), mul);
    var f := Fetch(s, 24, 8);
    var g := Mul(Add(y, Fetch(s, len - 32, 8)), mul);
    var h := Mul(Add(z, Fetch(s, len - 24, 8)), mul);
    HashLen16(Add(Add(Rotate(Add(e, f), 43), Rotate(g, 30)), h), Add(Add(e, Rotate(Add(f, a), 18)), g), mul)
  }

  /** The 56 bytes of state of the loop for long strings. */
  datatype State = State(x: nat, y: nat, z: nat, v: (nat, nat), w: (nat, nat))

  function Initial(s: seq<nat>): (st: State)
    requires |s| >= 8
  {
    var y := Add(Mul(SEED, K1), 113);
    var z := Mul(ShiftMix(Add(Mul(y, K2), 113)), K2);
    State(Add(Mul(SEED, K2), Fetch(s, 0, 8)), y, z, (0, 0), (0, 0))
  }

  /** One turn of the loop over the 64 bytes at p. */
  function Round(st: State, s: seq<nat>, p: nat): (r: State)
    requires p + 64 <= |s|
  {
    var x1 := Mul(Rotate(Add(Add(Add(st.x, st.y), st.v.0), Fetch(s, p + 8, 8)), 37), K1);
    var y1 := Mul(Rotate(Add(Add(st.y, st.v.1), Fetch(s, p + 48, 8)), 42), K1);
    var x2 := Xor(x1, st.w.1);
    var y2 := Add(y1, Add(st.v.0, Fetch(s, p + 40, 8)));
    var z1 := Mul(Rotate(Add(st.z, st.w.0), 33), K1);
    var v1 := WeakHashAt(s, p, Mul(st.v.1, K1), Add(x2, st.w.0));
    var w1 := WeakHashAt(s, p + 32, Add(z1, st.w.1), Add(y2, Fetch(s, p + 16, 8)));
    State(z1, y2, x2, v1, w1)
  }

  /** The state after the blocks before p. */
  function Rounds(s: seq<nat>, n: nat): (r: State)
    requires |s| >= 8 && 64 * n <= |s|
  {
    if n == 0 then Initial(s) else Round(Rounds(s, n - 1), s, 64 * (n - 1))
  }

  function Multiplier(z: nat): (mul: nat)
    ensures mul < Pow2(64)
  {
    Add(K1, Shl(64, And(z, 0xff), 1))
  }

  /** The closing turn, over the last 64 bytes. */
  function Closing(st: State, s: seq<nat>, mul: nat): (r: State)
    requires |s| >= 64
  {
    var len := |s|;
    var p := len - 64;
    var w0 := Add(st.w.0, (len - 1) % 64);
    var v0 := Add(st.v.0, w0);
    var w00 := Add(w0, v0);
    var x1 := Mul(Rotate(Add(Add(Add(st.x, st.y), v0), Fetch(s, p + 8, 8)), 37), mul);
    var y1 := Mul(Rotate(Add(Add(st.y, st.v.1), Fetch(s, p + 48, 8)), 42), mul);
    var x2 := Xor(x1, Mul(st.w.1, 9));
    var y2 := Add(y1, Add(Mul(v0, 9), Fetch(s, p + 40, 8)));
    var z1 := Mul(Rotate(Add(st.z, w00), 33), mul);
    var v1 := WeakHashAt(s, p, Mul(st.v.1, mul), Add(x2, w00));
    var w1 := WeakHashAt(s, p + 32, Add(z1, st.w.1), Add(y2, Fetch(s, p + 16, 8)));
    State(z1, y2, x2, v1, w1)
  }

  function Combine(st: State, mul: nat): (r: nat)
    ensures r < Pow2(64)
  {
    HashLen16(Add(Add(HashLen16(st.v.0, st.w.0, mul), Mul(ShiftMix(st.y), K0)), st.z),
              Add(HashLen16(st.v.1, st.w.1, mul), st.x), mul)
  }

  function Hash64(s: seq<nat>): (r: nat) {
    if |s| <= 16 then HashLen0To16(s)
    else if |s| <= 32 then HashLen17To32(s)
    else if |s| <= 64 then HashLen33To64(s)
    else
      var st := Rounds(s, (|s| - 1) / 64);
      var mul := Multiplier(st.z);
      Combine(Closing(st, s, mul), mul)
  }

  function Hash64WithSeeds(s: seq<nat>, seed0: nat, seed1: nat): (r: nat) {
    Hash128To64(Sub(Hash64(s), seed0), seed1)
  }

  function Hash64WithSeed(s: seq<nat>, seed: nat): (r: nat) {
    Hash64WithSeeds(s, K2, seed)
  }

  /** The loop form: a do-while that runs to the pointer `end` and steps back to the last 64 bytes. */
  method ComputeHash64(s: seq<nat>) returns (r: nat)
    requires IsString(s)
    ensures r == Hash64(s)
  {
    hide Add, Mul, Rotate, Xor, ShiftMix, HashLen16, WeakHashAt, Fetch, Pow2, Shl, And;
    var len := |s|;
    if len <= 32 {
      if len <= 16 {
        return HashLen0To16(s);
      } else {
        return HashLen17To32(s);
      }
    } else if len <= 64 {
      return HashLen33To64(s);
    }
    var end := (len - 1) / 64 * 64;
    var last := end + And(len - 1, 63) - 63;
    LowSixBits(len - 1);
    assert last == len - 64;
    var x, y := SEED, Add(Mul(SEED, K1), 113);
    var z := Mul(ShiftMix(Add(Mul(y, K2), 113)), K2);
    var v, w := (0, 0), (0, 0);
    x := Add(Mul(x, K2), Fetch(s, 0, 8));
    var p, n, first := 0, 0, true;
    while first || p != end
      invariant 0 <= n <= (len - 1) / 64 && p == 64 * n && first == (n == 0)
      invariant State(x, y, z, v, w) == Rounds(s, n)
      decreases end - p
    {
      x := Mul(Rotate(Add(Add(Add(x, y), v.0), Fetch(s, p + 8, 8)), 37), K1);
      y := Mul(Rotate(Add(Add(y, v.1), Fetch(s, p + 48, 8)), 42), K1);
      x := Xor(x, w.1);
      y := Add(y, Add(v.0, Fetch(s, p + 40, 8)));
      z := Mul(Rotate(Add(z, w.0), 33), K1);
      v := WeakHashAt(s, p, Mul(v.1, K1), Add(x, w.0));
      w := WeakHashAt(s, p + 32, Add(z, w.1), Add(y, Fetch(s, p + 16, 8)));
      z, x := x, z;
      p, n, first := p + 64, n + 1, false;
    }
    var mul := Add(K1, Shl(64, And(z, 0xff), 1));
    p := last;
    w := (Add(w.0, And(len - 1, 63)), w.1);
    v := (Add(v.0, w.0), v.1);
    w := (Add(w.0, v.0), w.1);
    x := Mul(Rotate(Add(Add(Add(x, y), v.0), Fetch(s, p + 8, 8)), 37), mul);
    y := Mul(Rotate(Add(Add(y, v.1), Fetch(s, p + 48, 8)), 42), mul);
    x := Xor(x, Mul(w.1, 9));
    y := Add(y, Add(Mul(v.0, 9), Fetch(s, p + 40, 8)));
    z := Mul(Rotate(Add(z, w.0), 33), mul);
    v := WeakHashAt(s, p, Mul(v.1, mul), Add(x, w.0));
    w := WeakHashAt(s, p + 32, Add(z, w.1), Add(y, Fetch(s, p + 16, 8)));
    z, x := x, z;
    r := HashLen16(Add(Add(HashLen16(v.0, w.0, mul), Mul(ShiftMix(y), K0)), z), Add(HashLen16(v.1, w.1, mul), x), mul);
  }

  lemma LowSixBits(x: nat)
    ensures And(x, 63) == x % 64
  {
    assert Pow2(6) == 64;
    hide And;
    AndMask(x, 6);
  }

  lemma ConstantsAreWords()
    ensures K0 < Pow2(64) && K1 < Pow2(64) && K2 < Pow2(64) && K_MUL < Pow2(64)
  {
    PowerValues();
    hide Pow2;
  }

  lemma PowerValues()
    ensures Pow2(3) == 8 && Pow2(8) == 256 && Pow2(32) == 0x1_0000_0000 && Pow2(64) == 0x1_0000_0000_0000_0000
  {
    SmallPowers();
    hide Pow2;
    Pow2Add(8, 8);
    Pow2Add(16, 16);
    Pow2Add(32, 32);
  }

  lemma SmallPowers()
    ensures Pow2(3) == 8 && Pow2(8) == 256
  {
  }

  lemma Hash64IsWord(s: seq<nat>)
    ensures Hash64(s) < Pow2(64)
  {
    ConstantsAreWords();
    hide Pow2, HashLen16, Mul, Add, Fetch, Rotate, WeakHashAt, ShiftMix, Xor;
  }

  // ---------- what the seeds do ----------

  /** Seeding neither adds nor removes collisions. */
  lemma SeedsKeepCollisions(s: seq<nat>, t: seq<nat>, seed0: nat, seed1: nat)
    requires seed0 < Pow2(64) && seed1 < Pow2(64)
    ensures Hash64WithSeeds(s, seed0, seed1) == Hash64WithSeeds(t, seed0, seed1) <==> Hash64(s) == Hash64(t)
  {
    hide Pow2, Hash64, HashLen16;
    Hash64IsWord(s);
    Hash64IsWord(t);
    SubInjective(Hash64(s), Hash64(t), seed0);
    HashLen16Injective(Sub(Hash64(s), seed0), Sub(Hash64(t), seed0), seed1, K_MUL);
  }

  /** The one-seed form is the two-seed form with a fixed first seed. */
  lemma SeedKeepsCollisions(s: seq<nat>, t: seq<nat>, seed: nat)
    requires seed < Pow2(64)
    ensures Hash64WithSeed(s, seed) == Hash64WithSeed(t, seed) <==> Hash64(s) == Hash64(t)
  {
    hide Hash64, Hash64WithSeeds;
    ConstantsAreWords();
    SeedsKeepCollisions(s, t, K2, seed);
  }

  lemma SubInjective(x: nat, y: nat, d: nat)
    requires x < Pow2(64) && y < Pow2(64) && d < Pow2(64)
    ensures Sub(x, d) == Sub(y, d) <==> x == y
  {
    hide Pow2;
    SubValue(x, d);
    SubValue(y, d);
  }

  lemma SubValue(x: nat, d: nat)
    requires x < Pow2(64) && d < Pow2(64)
    ensures Sub(x, d) == if x >= d then x - d else x - d + Pow2(64)
  {
    hide Pow2;
    if x >= d {
      DivUnique(x - d, Pow2(64), 0, x - d);
    } else {
      DivUnique(x - d, Pow2(64), -1, x - d + Pow2(64));
    }
  }

  /** For one string and one second seed, the first seed determines the hash and is determined by it. */
  lemma FirstSeedIsBijective(s: seq<nat>, seed0: nat, seed0': nat, seed1: nat)
    requires seed0 < Pow2(64) && seed0' < Pow2(64) && seed1 < Pow2(64)
    ensures Hash64WithSeeds(s, seed0, seed1) == Hash64WithSeeds(s, seed0', seed1) <==> seed0 == seed0'
  {
    hide Pow2, Hash64, HashLen16;
    Hash64IsWord(s);
    SubValue(Hash64(s), seed0);
    SubValue(Hash64(s), seed0');
    HashLen16Injective(Sub(Hash64(s), seed0), Sub(Hash64(s), seed0'), seed1, K_MUL);
  }

  // ---------- short strings ----------

  lemma {:induction false} FetchBound(s: seq<nat>, p: nat, n: nat)
    requires p + n <= |s| && forall i :: 0 <= i < |s| ==> s[i] < 256
    ensures Fetch(s, p, n) < Pow2(8 * n)
    decreases n
  {
    if n > 0 {
      hide Pow2;
      PowerValues();
      FetchBound(s, p + 1, n - 1);
      Pow2Add(8, 8 * (n - 1));
    }
  }

  lemma {:induction false} FetchInjective(s: seq<nat>, t: seq<nat>, p: nat, n: nat)
    requires p + n <= |s| && p + n <= |t| && forall i :: 0 <= i < |s| ==> s[i] < 256
    requires forall i :: 0 <= i < |t| ==> t[i] < 256
    ensures Fetch(s, p, n) == Fetch(t, p, n) <==> s[p..p + n] == t[p..p + n]
    decreases n
  {
    if n > 0 {
      FetchInjective(s, t, p + 1, n - 1);
      SlicesEqualIff(s, t, p, n);
      LowByte(s[p], t[p], Fetch(s, p + 1, n - 1), Fetch(t, p + 1, n - 1));
    }
  }

  lemma LowByte(a: nat, b: nat, x: nat, y: nat)
    requires a < 256 && b < 256
    ensures a + 256 * x == b + 256 * y <==> a == b && x == y
  {
  }

  lemma SlicesEqualIff(s: seq<nat>, t: seq<nat>, p: nat, n: nat)
    requires 0 < n && p + n <= |s| && p + n <= |t|
    ensures s[p..p + n] == t[p..p + n] <==> s[p] == t[p] && s[p + 1..p + n] == t[p + 1..p + n]
  {
    assert s[p..p + n] == [s[p]] + s[p + 1..p + n];
    assert t[p..p + n] == [t[p]] + t[p + 1..p + n];
    assert s[p..p + n][0] == s[p] && s[p..p + n][1..] == s[p + 1..p + n];
    assert t[p..p + n][0] == t[p] && t[p..p + n][1..] == t[p + 1..p + n];
  }

  lemma OddMultiplier(len: nat)
    ensures Add(K2, len * 2) % 2 == 1
  {
    hide Pow2;
    TopPower(64);
    EvenModulus(K2 + len * 2, Pow2(63));
    assert (K2 + len * 2) % 2 == 1;
  }

  lemma EvenModulus(x: int, p: int)
    requires p > 0
    ensures (x % (2 * p)) % 2 == x % 2
  {
    DivMod(x, 2 * p);
    MulDouble(x / (2 * p), p);
    ModAddMultiple(x % (2 * p), (x / (2 * p)) * p, 2);
  }

  lemma FirstArgument(s: seq<nat>)
    requires IsString(s) && 4 <= |s| <= 7
    ensures var u := Add(|s|, Shl(64, Fetch(s, 0, 4), 3)); u == |s| + 8 * Fetch(s, 0, 4) < Pow2(64)
  {
    hide Pow2, Fetch;
    PowerValues();
    FetchBound(s, 0, 4);
    WrapOfSmall(64, Fetch(s, 0, 4) * 8);
    WrapOfSmall(64, |s| + 8 * Fetch(s, 0, 4));
  }

  lemma Hash4To7(s: seq<nat>)
    requires IsString(s) && 4 <= |s| <= 7
    ensures Hash64(s) == HashLen16(|s| + 8 * Fetch(s, 0, 4), Fetch(s, |s| - 4, 4), Add(K2, |s| * 2))
  {
    hide Pow2, HashLen16, Fetch, Add, Shl, Mul, Rotate, ShiftMix, Xor;
    FirstArgument(s);
  }

  /** The first four of 4 to 7 bytes from the hash, the length and the last four. */
  lemma Hash4To7Undone(s: seq<nat>)
    requires IsString(s) && 4 <= |s| <= 7
    ensures |s| + 8 * Fetch(s, 0, 4) == Unhash(Hash64(s), Fetch(s, |s| - 4, 4), Add(K2, |s| * 2))
  {
    hide Pow2, HashLen16, Unhash, Fetch, Hash64, Add;
    PowerValues();
    FetchBound(s, 0, 4);
    FetchBound(s, |s| - 4, 4);
    OddMultiplier(|s|);
    Hash4To7(s);
    HashLen16Bijective(|s| + 8 * Fetch(s, 0, 4), Fetch(s, |s| - 4, 4), Add(K2, |s| * 2));
  }

  /** Strings of 4 to 7 bytes with the same length and the same last four bytes never collide. */
  lemma NoCollision4To7(s: seq<nat>, t: seq<nat>)
    requires IsString(s) && IsString(t) && 4 <= |s| == |t| <= 7 && s[|s| - 4..] == t[|s| - 4..]
    ensures Hash64(s) == Hash64(t) <==> s == t
  {
    hide Pow2, Unhash, Fetch, Hash64, Add;
    var len := |s|;
    assert s[len - 4..len] == s[len - 4..] && t[len - 4..len] == t[len - 4..];
    FetchInjective(s, t, len - 4, 4);
    FetchInjective(s, t, 0, 4);
    Hash4To7Undone(s);
    Hash4To7Undone(t);
    SameEnds(s, t);
  }

  /** The first four and the last four bytes make up a string of 4 to 7 bytes. */
  lemma SameEnds(s: seq<nat>, t: seq<nat>)
    requires 4 <= |s| == |t| <= 7 && s[|s| - 4..] == t[|s| - 4..]
    ensures s[0..4] == t[0..4] <==> s == t
  {
    var len := |s|;
    if s[0..4] == t[0..4] {
      forall i | 0 <= i < len
        ensures s[i] == t[i]
      {
        if i < 4 {
          assert s[i] == s[0..4][i] && t[i] == t[0..4][i];
        } else {
          assert s[i] == s[len - 4..][i - (len - 4)] && t[i] == t[len - 4..][i - (len - 4)];
        }
      }
    }
  }

  /** Strings of 1 to 3 bytes with the same length and the same last byte never collide. */
  lemma NoCollision1To3(s: seq<nat>, t: seq<nat>)
    requires IsString(s) && IsString(t) && 1 <= |s| == |t| <= 3 && s[|s| - 1] == t[|s| - 1]
    ensures Hash64(s) == Hash64(t) <==> s == t
  {
    hide Pow2, Mul, ShiftMix, Xor;
    PowerValues();
    var len := |s|;
    var y, y' := s[0] + s[len / 2] * 256, t[0] + t[len / 2] * 256;
    var z := Mul(len + s[len - 1] * 4, K0);
    assert y == y' <==> s == t;
    Mix1To3Injective(y, y', z);
  }

  lemma Mix1To3Injective(y: nat, y': nat, z: nat)
    requires y < Pow2(64) && y' < Pow2(64) && z < Pow2(64)
    ensures Mul(ShiftMix(Xor(Mul(y, K2), z)), K2) == Mul(ShiftMix(Xor(Mul(y', K2), z)), K2) <==> y == y'
  {
    hide Pow2, Mul, ShiftMix, Xor, OddInverse;
    InverseOf64(K2);
    var i := OddInverse(64, K2);
    Mix1To3Undone(y, z, K2, i);
    Mix1To3Undone(y', z, K2, i);
  }

  lemma Mix1To3Undone(y: nat, z: nat, k: nat, i: nat)
    requires y < Pow2(64) && z < Pow2(64) && (k * i) % Pow2(64) == 1
    ensures var h := Mul(ShiftMix(Xor(Mul(y, k), z)), k); y == Mul(Xor(ShiftMix(Mul(h, i)), z), i)
  {
    hide Pow2, Mul, ShiftMix, Xor;
    var a := Mul(y, k);
    MulUndone(y, k, i);
    XorBound(a, z, 64);
    XorCancel(a, z);
    ShiftMixInvolution(Xor(a, z));
    MulUndone(ShiftMix(Xor(a, z)), k, i);
  }
}

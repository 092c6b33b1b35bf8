/** fastpforlib's bit packing: lanes of D-bit values in a buffer of W-bit words. The
    template recursion over OINDEX is a loop over the lane index. */
module BitPacking {
  import opened Words
  import opened Bits
  import opened WideArithmetic
  import opened WideDivision
  import opened Digits

  /** The lane values reduced to D bits. */
  function Masked(D: nat, vs: seq<nat>): (r: seq<nat>)
    ensures |r| == |vs|
  {
    seq(|vs|, i requires 0 <= i < |vs| => Wrap(D, vs[i]))
  }

  // ---------- single words ----------

  /** Or-ing x shifted by s into a word whose bits above s are clear; what leaves the word is lost. */
  lemma OrInto(W: nat, a: nat, x: nat, s: nat)
    requires s <= W && a < Pow2(s)
    ensures x * Pow2(s) >= 0 && Wrap(W, Or(a, x * Pow2(s))) == a + Wrap(W - s, x) * Pow2(s)
  {
    hide Pow2, Or;
    MulNonneg(x, Pow2(s));
    OrDisjoint(a, x, s);
    Pow2Add(s, W - s);
    OrIntoValue(a, x, Pow2(s), Pow2(W - s));
  }

  lemma OrIntoValue(a: int, x: int, p: int, c: int)
    requires p > 0 && c > 0 && 0 <= a < p
    ensures p * c > 0 && (a + x * p) % (p * c) == a + (x % c) * p
  {
    ModOfPair(a, x, p, c);
  }

  /** The parts of a masked value on either side of a word boundary c bits up. */
  lemma SplitMasked(v: nat, D: nat, c: nat)
    requires c <= D
    ensures Wrap(D, v) == Wrap(c, v) + Shr(Wrap(D, v), c) * Pow2(c)
    ensures Shr(Wrap(D, v), c) < Pow2(D - c)
  {
    Pow2Add(c, D - c);
    var t := Wrap(D, v);
    hide Pow2;
    ModMod(v, Pow2(c), Pow2(D - c));
    ShrSplit(t, c);
    DivBelow(t, Pow2(c), Pow2(D - c));
  }

  lemma ModMod(v: int, c: int, e: int)
    requires c > 0 && e > 0
    ensures c * e > 0 && (v % (c * e)) % c == v % c
  {
    MulStrict(0, c, e);
    DivMod(v, c * e);
    var q := v / (c * e);
    assert q * (c * e) == (q * e) * c;
    ModAddMultiple(v % (c * e), q * e, c);
  }

  // ---------- the buffer ----------

  /** Number of words touched by k*W + s bits. */
  function Filled(k: nat, s: nat): (n: nat) {
    k + (if s > 0 then 1 else 0)
  }

  /** Position after D more bits. */
  function Advance(W: nat, k: nat, s: nat, D: nat): (r: (nat, nat))
    requires W > 0
  {
    if s + D < W then (k, s + D)
    else if s + D < 2 * W then (k + 1, s + D - W)
    else if s + D < 3 * W then (k + 2, s + D - 2 * W)
    else (k + 3, 0)
  }

  /** Everything outside out[lo..hi] is as it was. */
  ghost predicate SameOutside(before: seq<nat>, after: seq<nat>, lo: nat, hi: nat) {
    |before| == |after| && forall j :: 0 <= j < |before| && !(lo <= j < hi) ==> after[j] == before[j]
  }

  lemma SameAtStart(buffer: seq<nat>, lo: nat, hi: nat)
    ensures SameOutside(buffer, buffer, lo, hi)
  {
  }

  /** The words from base on hold exactly the k*W + s bits of X. */
  ghost predicate Ready(W: nat, buffer: seq<nat>, base: nat, X: nat, k: nat, s: nat) {
    s < W && base + Filled(k, s) <= |buffer| && Holds(W, buffer[base..base + Filled(k, s)], X, k, s)
  }

  /** The step from before to after put the c bits of t above the k*W + s bits of X, and did nothing else. */
  ghost predicate Appended(W: nat, before: seq<nat>, after: seq<nat>, base: nat, X: nat, k: nat, s: nat, t: nat, c: nat)
    requires W > 0
  {
    var (k', s') := Advance(W, k, s, c);
    MulNonneg(k, W);
    MulNonneg(t, Pow2(k * W + s));
    && Ready(W, after, base, X + t * Pow2(k * W + s), k', s')
    && SameOutside(before, after, base + k, base + Filled(k', s'))
  }

  lemma ReadyFacts(W: nat, buffer: seq<nat>, base: nat, X: nat, k: nat, s: nat)
    requires Ready(W, buffer, base, X, k, s)
    ensures s < W && base + Filled(k, s) <= |buffer|
  {
  }

  lemma AppendedReady(W: nat, before: seq<nat>, after: seq<nat>, base: nat, X: nat, k: nat, s: nat, t: nat, c: nat)
    requires W > 0 && Appended(W, before, after, base, X, k, s, t, c)
    ensures k * W >= 0 && t * Pow2(k * W + s) >= 0 && |before| == |after|
    ensures Ready(W, after, base, X + t * Pow2(k * W + s), Advance(W, k, s, c).0, Advance(W, k, s, c).1)
  {
    hide Pow2, Ready;
    MulNonneg(k, W);
    MulNonneg(t, Pow2(k * W + s));
  }

  lemma PartialWord(W: nat, buffer: seq<nat>, base: nat, X: nat, k: nat, s: nat)
    requires Ready(W, buffer, base, X, k, s) && s > 0
    ensures buffer[base + k] < Pow2(s)
  {
    PartialWordIsSmall(W, buffer[base..base + Filled(k, s)], X, k, s);
  }

  /** Writing the word that Extended describes appends the chunk. */
  lemma WordAppends(W: nat, before: seq<nat>, base: nat, X: nat, k: nat, s: nat, t: nat, c: nat, w: nat)
    requires Ready(W, before, base, X, k, s) && base + k < |before|
    requires 0 < c && s + c <= W && t < Pow2(c)
    requires t * Pow2(s) >= 0 && w == if s == 0 then t else before[base + k] + t * Pow2(s)
    ensures Appended(W, before, before[base + k := w], base, X, k, s, t, c)
  {
    hide Pow2, Holds, Extended;
    var words := before[base..base + Filled(k, s)];
    WordExtends(before, base, k, s, t, w);
    ChunkStep(W, words, X, k, s, t, c);
    OneWordAdvance(W, k, s, c);
  }

  /** The slice with the new word is the extended slice. */
  lemma WordExtends(before: seq<nat>, base: nat, k: nat, s: nat, t: nat, w: nat)
    requires base + k < |before| && t * Pow2(s) >= 0 && w == if s == 0 then t else before[base + k] + t * Pow2(s)
    ensures before[base + k := w][base..base + k + 1] == Extended(before[base..base + Filled(k, s)], k, s, t)
  {
    hide Pow2;
  }

  lemma OneWordAdvance(W: nat, k: nat, s: nat, c: nat)
    requires W > 0 && s < W && 0 < c && s + c <= W
    ensures Advance(W, k, s, c) == if s + c == W then (k + 1, 0) else (k, s + c)
    ensures Filled(Advance(W, k, s, c).0, Advance(W, k, s, c).1) == k + 1
  {
  }

  /** Chunks that meet at a word boundary are one longer chunk. */
  lemma JoinChunks(W: nat, before: seq<nat>, between: seq<nat>, after: seq<nat>,
                   base: nat, X: nat, k: nat, s: nat, t: nat, c: nat, t': nat, c': nat)
    requires W > 0 && s < W && Advance(W, k, s, c).1 == 0 && s + c + c' < 3 * W && c > 0
    requires Appended(W, before, between, base, X, k, s, t, c)
    requires k * W >= 0 && t * Pow2(k * W + s) >= 0
    requires Appended(W, between, after, base, X + t * Pow2(k * W + s), Advance(W, k, s, c).0, 0, t', c')
    ensures t' * Pow2(c) >= 0 && Appended(W, before, after, base, X, k, s, t + t' * Pow2(c), c + c')
  {
    hide Pow2, Ready;
    var k' := Advance(W, k, s, c).0;
    MulNonneg(t', Pow2(c));
    WordBoundary(W, k, s, c);
    Pow2Add(k * W + s, c);
    TwoChunks(X, Pow2(k * W + s), Pow2(k' * W), t, t', Pow2(c));
  }

  lemma WordBoundary(W: nat, k: nat, s: nat, c: nat)
    requires W > 0 && s < W && Advance(W, k, s, c).1 == 0 && s + c < 3 * W && c > 0
    ensures Advance(W, k, s, c).0 * W == k * W + s + c
  {
  }

  lemma TwoChunks(X: nat, P: int, p: int, t: int, t': int, c: int)
    requires p == P * c
    ensures X + t * P + t' * p == X + (t + t' * c) * P
  {
    assert t' * (P * c) == (t' * c) * P;
  }

  // ---------- packing one lane ----------

  /** Appends to a word under construction with the source's or-assignment; c bits survive the truncation. */
  method OrChunk(W: nat, out: array<nat>, o: nat, x: nat, s: nat,
                 ghost base: nat, ghost X: nat, ghost k: nat, ghost c: nat)
    requires Ready(W, out[..], base, X, k, s) && o == base + k < out.Length && 0 < s
    requires 0 < c && s + c <= W && Wrap(W - s, x) < Pow2(c)
    modifies out
    ensures Appended(W, old(out[..]), out[..], base, X, k, s, Wrap(W - s, x), c)
  {
    hide Pow2, Holds, Or, Wrap, Appended;
    PartialWord(W, out[..], base, X, k, s);
    OrInto(W, out[o], x, s);
    MulNonneg(Wrap(W - s, x), Pow2(s));
    WordAppends(W, out[..], base, X, k, s, Wrap(W - s, x), c, out[o] + Wrap(W - s, x) * Pow2(s));
    ghost var after := out[..][o := out[o] + Wrap(W - s, x) * Pow2(s)];
    out[o] := Wrap(W, Or(out[o], x * Pow2(s)));
    assert out[..] == after;
  }

  /** Starts the next word. */
  method StoreChunk(W: nat, out: array<nat>, o: nat, t: nat,
                    ghost base: nat, ghost X: nat, ghost k: nat, ghost c: nat)
    requires Ready(W, out[..], base, X, k, 0) && o == base + k < out.Length
    requires 0 < c <= W && t < Pow2(c)
    modifies out
    ensures Appended(W, old(out[..]), out[..], base, X, k, 0, t, c)
  {
    hide Holds, Appended;
    WordAppends(W, out[..], base, X, k, 0, t, c, t);
    ghost var after := out[..][o := t];
    out[o] := t;
    assert out[..] == after;
  }

  /** Room for the lane: the words it touches exist. */
  ghost predicate Room(W: nat, out: array<nat>, base: nat, k: nat, s: nat, D: nat)
    requires W > 0
  {
    base + Filled(Advance(W, k, s, D).0, Advance(W, k, s, D).1) <= out.Length
  }

  /** pack_single_in for 8-, 16- and 32-bit elements. */
  method PackSingle(W: nat, D: nat, s: nat, v: nat, out: array<nat>, o: nat,
                    ghost base: nat, ghost X: nat, ghost k: nat) returns (o': nat)
    requires 0 < D < W && Ready(W, out[..], base, X, k, s) && o == base + k && Room(W, out, base, k, s, D)
    modifies out
    ensures Appended(W, old(out[..]), out[..], base, X, k, s, Wrap(D, v), D)
    ensures o' == base + Advance(W, k, s, D).0
  {
    var masked := And(v, Pow2(D) - 1);
    AndMask(v, D);
    assert masked == Wrap(D, v);
    hide Pow2, Holds, And, Appended;
    o' := o;
    if D + s < W {
      if s == 0 {
        StoreChunk(W, out, o, masked, base, X, k, D);
      } else {
        Pow2Mono(D, W - s);
        WrapOfSmall(W - s, masked);
        OrChunk(W, out, o, masked, s, base, X, k, D);
      }
    } else {
      PackSplit(W, D, s, v, Shr(masked, W - s), out, o, base, X, k, v);
      o' := o' + 1;
    }
  }

  /** The low bits of x into the current word and hi, the rest of v's D bits, into the next. */
  method PackSplit(W: nat, D: nat, s: nat, x: nat, hi: nat, out: array<nat>, o: nat,
                   ghost base: nat, ghost X: nat, ghost k: nat, ghost v: nat)
    requires W <= D + s <= 2 * W && Ready(W, out[..], base, X, k, s)
    requires o == base + k && Room(W, out, base, k, s, D)
    requires hi == Shr(Wrap(D, v), W - s) && Wrap(W - s, x) == Wrap(W - s, v)
    modifies out
    ensures Appended(W, old(out[..]), out[..], base, X, k, s, Wrap(D, v), D)
  {
    hide Pow2, Ready, Wrap, Shr, Appended, SameOutside;
    assert s < W by { ReadyFacts(W, out[..], base, X, k, s); }
    if s == 0 {
      StoreChunk(W, out, o, Wrap(W, x), base, X, k, W);
    } else {
      OrChunk(W, out, o, x, s, base, X, k, W - s);
    }
    if D + s > W {
      ghost var between := out[..];
      SplitMasked(v, D, W - s);
      AppendedReady(W, old(out[..]), between, base, X, k, s, Wrap(W - s, v), W - s);
      StoreChunk(W, out, o + 1, hi, base, X + Wrap(W - s, v) * Pow2(k * W + s), k + 1, D + s - W);
      JoinChunks(W, old(out[..]), between, out[..], base, X, k, s, Wrap(W - s, v), W - s, hi, D + s - W);
    }
  }

  lemma ShiftThenWrap(v: nat, D: nat, a: nat, W: nat)
    requires a + W <= D
    ensures Wrap(W, Shr(Wrap(D, v), a)) == Shr(Wrap(a + W, v), a)
  {
    hide Pow2;
    Pow2Add(a, W);
    Pow2Add(a + W, D - (a + W));
    ModMod(v, Pow2(a + W), Pow2(D - (a + W)));
    DivThenMod(Wrap(D, v), Pow2(a), Pow2(W));
  }

  lemma DivThenMod(x: int, a: int, b: int)
    requires a > 0 && b > 0
    ensures a * b > 0 && (x / a) % b == (x % (a * b)) / a
  {
    MulStrict(0, a, b);
    DivMod(x, a * b);
    var q, r := x / (a * b), x % (a * b);
    assert q * (a * b) == (q * b) * a;
    ModAddMultiple(r, q * b, a);
    ModAddMultiple(r / a, q, b);
    DivBelow(r, a, b);
    DivUnique(r / a, b, 0, r / a);
  }

  /** The low W - s bits of a value are those of its D-bit mask. */
  lemma MaskKeepsLow(v: nat, D: nat, c: nat)
    requires c <= D
    ensures Wrap(c, Wrap(D, v)) == Wrap(c, v)
  {
    Pow2Add(c, D - c);
    ModMod(v, Pow2(c), Pow2(D - c));
  }

  /** The part of a masked value above the current word fits one word. */
  lemma UpperPart(W: nat, D: nat, s: nat, v: nat)
    requires s <= W <= D + s <= 2 * W
    ensures Wrap(W - s, Wrap(D, v)) == Wrap(W - s, v)
    ensures Wrap(W, Shr(Wrap(D, v), W - s)) == Shr(Wrap(D, v), W - s)
  {
    hide Pow2, Wrap, Shr;
    MaskKeepsLow(v, D, W - s);
    SplitMasked(v, D, W - s);
    Pow2Mono(D + s - W, W);
    WrapOfSmall(W, Shr(Wrap(D, v), W - s));
  }

  /** pack_single_in64: elements of two words each. */
  method PackSingle64(W: nat, D: nat, s: nat, v: nat, out: array<nat>, o: nat,
                      ghost base: nat, ghost X: nat, ghost k: nat) returns (o': nat)
    requires 0 < D < 2 * W && Ready(W, out[..], base, X, k, s) && o == base + k && Room(W, out, base, k, s, D)
    modifies out
    ensures Appended(W, old(out[..]), out[..], base, X, k, s, Wrap(D, v), D)
    ensures o' == base + Advance(W, k, s, D).0
  {
    var masked := And(v, Pow2(D) - 1);
    AndMask(v, D);
    assert masked == Wrap(D, v);
    hide Pow2, Ready, And, Appended, Wrap, Shr, SameOutside;
    o' := o;
    if D + s < W {
      if s == 0 {
        Pow2Mono(D, W);
        WrapOfSmall(W, masked);
        StoreChunk(W, out, o, Wrap(W, masked), base, X, k, D);
      } else {
        Pow2Mono(D, W - s);
        WrapOfSmall(W - s, masked);
        OrChunk(W, out, o, masked, s, base, X, k, D);
      }
    } else if D + s < 2 * W {
      UpperPart(W, D, s, v);
      PackSplit(W, D, s, masked, Wrap(W, Shr(masked, W - s)), out, o, base, X, k, v);
      o' := o + 1;
    } else {
      ShiftThenWrap(v, D, W - s, W);
      PackSplit(W, 2 * W - s, s, v, Wrap(W, Shr(masked, W - s)), out, o, base, X, k, v);
      o' := o + 2;
      if D + s > 2 * W {
        PackThird(W, D, s, v, masked, out, o', old(out[..]), base, X, k);
      }
    }
  }

  /** The third word of a lane that spans three. */
  method PackThird(W: nat, D: nat, s: nat, ghost v: nat, masked: nat, out: array<nat>, o: nat,
                   ghost before: seq<nat>, ghost base: nat, ghost X: nat, ghost k: nat)
    requires 0 < D < 2 * W < D + s && s < W && masked == Wrap(D, v)
    requires o == base + k + 2 && Room(W, out, base, k, s, D)
    requires Appended(W, before, out[..], base, X, k, s, Wrap(2 * W - s, v), 2 * W - s)
    modifies out
    ensures Appended(W, before, out[..], base, X, k, s, masked, D)
  {
    hide Pow2, Holds, Wrap;
    ghost var between := out[..];
    SplitMasked(v, D, 2 * W - s);
    ghost var t := Wrap(2 * W - s, v);
    MulNonneg(k, W);
    MulNonneg(t, Pow2(k * W + s));
    StoreChunk(W, out, o, Shr(masked, 2 * W - s), base, X + t * Pow2(k * W + s), k + 2, D + s - 2 * W);
    JoinChunks(W, before, between, out[..], base, X, k, s, t, 2 * W - s, Shr(masked, 2 * W - s), D + s - 2 * W);
  }

  // ---------- packing a block ----------

  /** words hold the lane values, D bits each, lowest lane first. */
  ghost predicate Packed(W: nat, D: nat, words: seq<nat>, vs: seq<nat>) {
    AreDigits(W, words) && ValueOf(W, words) == ValueOf(D, Masked(D, vs))
  }

  /** Lanes before i are in place: bit i*D is the next one to fill. */
  ghost predicate LanesIn(W: nat, D: nat, vs: seq<nat>, i: nat, buffer: seq<nat>, base: nat, k: nat, s: nat)
    requires i <= |vs|
  {
    s < W && k * W + s == i * D && Ready(W, buffer, base, ValueOf(D, Masked(D, vs)[..i]), k, s)
  }

  lemma LaneAdded(W: nat, D: nat, vs: seq<nat>, i: nat, start: seq<nat>, before: seq<nat>, after: seq<nat>,
                  base: nat, k: nat, s: nat)
    requires 0 < W && 0 < D < 2 * W && i < |vs| && LanesIn(W, D, vs, i, before, base, k, s)
    requires Appended(W, before, after, base, ValueOf(D, Masked(D, vs)[..i]), k, s, Wrap(D, vs[i]), D)
    requires SameOutside(start, before, base, base + D)
    requires Filled(Advance(W, k, s, D).0, Advance(W, k, s, D).1) <= D
    ensures var (k', s') := Advance(W, k, s, D); LanesIn(W, D, vs, i + 1, after, base, k', s')
    ensures SameOutside(start, after, base, base + D)
  {
    hide Pow2, Ready, ValueOf, Wrap;
    LaneValue(D, Masked(D, vs), i);
    Landing(W, D, k, s, i);
  }

  lemma LaneValue(D: nat, ms: seq<nat>, i: nat)
    requires i < |ms|
    ensures i * D >= 0 && ms[i] * Pow2(i * D) >= 0
    ensures ValueOf(D, ms[..i + 1]) == ValueOf(D, ms[..i]) + ms[i] * Pow2(i * D)
  {
    hide Pow2, ValueOf;
    assert ms[..i + 1] == ms[..i] + [ms[i]];
    ValueAppend(D, ms[..i], [ms[i]]);
    ValueOne(D, ms[i]);
    MulNonneg(ms[i], Pow2(i * D));
    MulComm(Pow2(i * D), ms[i]);
  }

  lemma Landing(W: nat, D: nat, k: nat, s: nat, i: nat)
    requires 0 < W && 0 < D < 2 * W && s < W && k * W + s == i * D
    ensures var (k', s') := Advance(W, k, s, D); s' < W && k' * W + s' == (i + 1) * D
  {
  }

  lemma NoLanes(W: nat, D: nat, vs: seq<nat>, buffer: seq<nat>, base: nat)
    requires 0 < W && base <= |buffer|
    ensures LanesIn(W, D, vs, 0, buffer, base, 0, 0)
  {
    assert buffer[base..base] == [] && Masked(D, vs)[..0] == [];
  }

  /** The lane at bit i*D starts in word k at bit (D*i) % W and stays within D words. */
  lemma LaneFits(W: nat, D: nat, vs: seq<nat>, i: nat, buffer: seq<nat>, base: nat, k: nat, s: nat)
    requires 0 < D < 2 * W && i < W == |vs| && LanesIn(W, D, vs, i, buffer, base, k, s)
    ensures Ready(W, buffer, base, ValueOf(D, Masked(D, vs)[..i]), k, s)
    ensures D * i >= 0 && s == (D * i) % W && k < D
    ensures Filled(Advance(W, k, s, D).0, Advance(W, k, s, D).1) <= D
    ensures i == W - 1 ==> if D < W then s + D == W else if D > W then s + D == 2 * W else s == 0
  {
    MulNonneg(D, i);
    DivUnique(D * i, W, k, s);
    var (k', s') := Advance(W, k, s, D);
    Landing(W, D, k, s, i);
    MulMono(i + 1, W, D);
    MulComm(W, D);
    if s' > 0 {
      MulCancelLt(k', D, W);
    } else if k' > D {
      MulStrict(D, k', W);
    }
    if i == W - 1 {
      assert s + D == (D - k) * W;
      FewWords(s + D, D - k, W);
    }
  }

  lemma FewWords(x: int, n: int, W: int)
    requires 0 < W && 0 < x < 3 * W && x == n * W
    ensures x == if x < 2 * W then W else 2 * W
  {
  }

  /** With every lane in, the words are full. */
  lemma LastLane(W: nat, D: nat, vs: seq<nat>, buffer: seq<nat>, base: nat, k: nat, s: nat)
    requires 0 < W == |vs| && LanesIn(W, D, vs, W, buffer, base, k, s)
    ensures k == D && s == 0 && base + D <= |buffer| && Packed(W, D, buffer[base..base + D], vs)
  {
    assert Masked(D, vs)[..W] == Masked(D, vs);
    DivUnique(W * D, W, k, s);
    DivUnique(W * D, W, D, 0);
  }

  /** Unroller8/16/32::Pack: lanes 0 to W-2 in turn, then the last lane, which ends the last word. */
  method PackLanes(W: nat, D: nat, vs: seq<nat>, out: array<nat>, base: nat)
    requires 0 < D < W && |vs| == W && base + D <= out.Length
    modifies out
    ensures Packed(W, D, out[base..base + D], vs)
    ensures SameOutside(old(out[..]), out[..], base, base + D)
  {
    hide Pow2, Ready, ValueOf, Wrap, Appended, LanesIn, SameOutside;
    SameAtStart(out[..], base, base + D);
    var o := base;
    ghost var k: nat, s: nat := 0, 0;
    var i := 0;
    NoLanes(W, D, vs, out[..], base);
    while i < W - 1
      invariant 0 <= i <= W - 1 && o == base + k
      invariant LanesIn(W, D, vs, i, out[..], base, k, s)
      invariant SameOutside(old(out[..]), out[..], base, base + D)
    {
      LaneFits(W, D, vs, i, out[..], base, k, s);
      ghost var before := out[..];
      o := PackSingle(W, D, (D * i) % W, vs[i], out, o, base, ValueOf(D, Masked(D, vs)[..i]), k);
      LaneAdded(W, D, vs, i, old(out[..]), before, out[..], base, k, s);
      k, s := Advance(W, k, s, D).0, Advance(W, k, s, D).1;
      i := i + 1;
    }
    PackLastLane(W, D, vs, out, o, base, old(out[..]), k, s);
  }

  method PackLastLane(W: nat, D: nat, vs: seq<nat>, out: array<nat>, o: nat, base: nat,
                      ghost start: seq<nat>, ghost k: nat, ghost s: nat)
    requires 0 < D < W && |vs| == W && o == base + k && base + D <= out.Length
    requires LanesIn(W, D, vs, W - 1, out[..], base, k, s) && SameOutside(start, out[..], base, base + D)
    modifies out
    ensures Packed(W, D, out[base..base + D], vs)
    ensures SameOutside(start, out[..], base, base + D)
  {
    hide Pow2, Ready, ValueOf, Wrap, Appended, LanesIn, SameOutside;
    LaneFits(W, D, vs, W - 1, out[..], base, k, s);
    ghost var before := out[..];
    OrChunk(W, out, o, vs[W - 1], (D * (W - 1)) % W, base, ValueOf(D, Masked(D, vs)[..W - 1]), k, D);
    LaneAdded(W, D, vs, W - 1, start, before, out[..], base, k, s);
    LastLane(W, D, vs, out[..], base, k + 1, 0);
    assert out[..][base..base + D] == out[base..base + D];
  }

  /** Unroller::Pack on 64-bit elements: the last lane ends the last word, through two words when D exceeds one. */
  method PackLanes64(W: nat, D: nat, vs: seq<nat>, out: array<nat>, base: nat)
    requires 0 < D < 2 * W && D != W && |vs| == W && base + D <= out.Length
    modifies out
    ensures Packed(W, D, out[base..base + D], vs)
    ensures SameOutside(old(out[..]), out[..], base, base + D)
  {
    hide Pow2, Ready, ValueOf, Wrap, Appended, LanesIn, SameOutside;
    SameAtStart(out[..], base, base + D);
    var o := base;
    ghost var k: nat, s: nat := 0, 0;
    var i := 0;
    NoLanes(W, D, vs, out[..], base);
    while i < W - 1
      invariant 0 <= i <= W - 1 && o == base + k
      invariant LanesIn(W, D, vs, i, out[..], base, k, s)
      invariant SameOutside(old(out[..]), out[..], base, base + D)
    {
      LaneFits(W, D, vs, i, out[..], base, k, s);
      ghost var before := out[..];
      o := PackSingle64(W, D, (D * i) % W, vs[i], out, o, base, ValueOf(D, Masked(D, vs)[..i]), k);
      LaneAdded(W, D, vs, i, old(out[..]), before, out[..], base, k, s);
      k, s := Advance(W, k, s, D).0, Advance(W, k, s, D).1;
      i := i + 1;
    }
    PackLastLane64(W, D, vs, out, o, base, old(out[..]), k, s);
  }

  method PackLastLane64(W: nat, D: nat, vs: seq<nat>, out: array<nat>, o: nat, base: nat,
                        ghost start: seq<nat>, ghost k: nat, ghost s: nat)
    requires 0 < D < 2 * W && D != W && |vs| == W && o == base + k && base + D <= out.Length
    requires LanesIn(W, D, vs, W - 1, out[..], base, k, s) && SameOutside(start, out[..], base, base + D)
    modifies out
    ensures Packed(W, D, out[base..base + D], vs)
    ensures SameOutside(start, out[..], base, base + D)
  {
    hide Pow2, Ready, ValueOf, Wrap, Appended, LanesIn, SameOutside;
    LaneFits(W, D, vs, W - 1, out[..], base, k, s);
    ghost var before := out[..];
    ghost var X := ValueOf(D, Masked(D, vs)[..W - 1]);
    var v := vs[W - 1];
    var shift := (D * (W - 1)) % W;
    if D > W {
      ShiftThenWrapAll(v, W - shift, W);
      PackSplit(W, D, shift, v, Wrap(W, Shr(v, W - shift)), out, o, base, X, k, v);
    } else {
      OrChunk(W, out, o, v, shift, base, X, k, D);
    }
    LaneAdded(W, D, vs, W - 1, start, before, out[..], base, k, s);
    LastLane(W, D, vs, out[..], base, Advance(W, k, s, D).0, 0);
    assert out[..][base..base + D] == out[base..base + D];
  }

  lemma ShiftThenWrapAll(v: nat, a: nat, W: nat)
    ensures Wrap(W, Shr(v, a)) == Shr(Wrap(a + W, v), a)
  {
    hide Pow2;
    Pow2Add(a, W);
    DivThenMod(v, Pow2(a), Pow2(W));
  }

  // ---------- the widths handled by plain loops ----------

  /** __fastpack of the full word width: one word per value, truncated. */
  method PackWhole(W: nat, vs: seq<nat>, out: array<nat>, base: nat)
    requires |vs| == W && base + W <= out.Length
    modifies out
    ensures Packed(W, W, out[base..base + W], vs)
    ensures SameOutside(old(out[..]), out[..], base, base + W)
  {
    hide Wrap;
    var k := 0;
    while k < W
      invariant 0 <= k <= W
      invariant forall j :: 0 <= j < k ==> out[base + j] == Wrap(W, vs[j])
      invariant SameOutside(old(out[..]), out[..], base, base + W)
    {
      out[base + k] := Wrap(W, vs[k]);
      k := k + 1;
    }
    assert out[base..base + W] == Masked(W, vs);
  }

  /** __fastpack64: the low word, then the high word of each 64-bit value. */
  method PackWhole64(W: nat, vs: seq<nat>, out: array<nat>, base: nat)
    requires |vs| == W && base + 2 * W <= out.Length && forall j :: 0 <= j < W ==> vs[j] < Pow2(2 * W)
    modifies out
    ensures Packed(W, 2 * W, out[base..base + 2 * W], vs)
    ensures SameOutside(old(out[..]), out[..], base, base + 2 * W)
  {
    hide Wrap, Shr, Pow2;
    var k := 0;
    while k < W
      invariant 0 <= k <= W
      invariant forall j :: 0 <= j < k ==> PairAt(W, out[..], base, vs, j)
      invariant SameOutside(old(out[..]), out[..], base, base + 2 * W)
    {
      ghost var before := out[..];
      out[base + 2 * k] := Wrap(W, vs[k]);
      out[base + 2 * k + 1] := Shr(vs[k], W);
      forall j | 0 <= j < k
        ensures PairAt(W, out[..], base, vs, j)
      {
        assert PairAt(W, before, base, vs, j);
      }
      assert PairAt(W, out[..], base, vs, k);
      k := k + 1;
    }
    ghost var words := out[base..base + 2 * W];
    forall j | 0 <= j < W
      ensures words[2 * j] == Wrap(W, vs[j]) && words[2 * j + 1] == Shr(vs[j], W)
    {
      assert PairAt(W, out[..], base, vs, j);
    }
    WordPairs(W, words, vs);
  }

  /** Value j stands as two words. */
  ghost predicate PairAt(W: nat, buffer: seq<nat>, base: nat, vs: seq<nat>, j: nat) {
    && j < |vs| && base + 2 * j + 1 < |buffer|
    && buffer[base + 2 * j] == Wrap(W, vs[j]) && buffer[base + 2 * j + 1] == Shr(vs[j], W)
  }

  /** Words taken in pairs are the digits of twice the width. */
  lemma {:induction false} WordPairs(W: nat, words: seq<nat>, vs: seq<nat>)
    requires |words| == 2 * |vs| && forall j :: 0 <= j < |vs| ==> vs[j] < Pow2(2 * W)
    requires forall j :: 0 <= j < |vs| ==> words[2 * j] == Wrap(W, vs[j]) && words[2 * j + 1] == Shr(vs[j], W)
    ensures Packed(W, 2 * W, words, vs)
  {
    hide Wrap, Pow2, Shr;
    if vs == [] {
    } else {
      assert vs[0] < Pow2(2 * W) && words[2 * 0] == Wrap(W, vs[0]) && words[2 * 0 + 1] == Shr(vs[0], W);
      forall j | 0 <= j < |vs| - 1
        ensures words[2..][2 * j] == Wrap(W, vs[1..][j]) && words[2..][2 * j + 1] == Shr(vs[1..][j], W)
      {
        assert words[2 * (j + 1)] == Wrap(W, vs[j + 1]) && words[2 * (j + 1) + 1] == Shr(vs[j + 1], W);
      }
      WordPairs(W, words[2..], vs[1..]);
      PairOfWords(W, vs[0]);
      Pow2Add(W, W);
      assert W + W == 2 * W;
      assert words[1..][1..] == words[2..];
      assert Masked(2 * W, vs)[1..] == Masked(2 * W, vs[1..]);
      ValueStep(W, words);
      ValueStep(W, words[1..]);
      ValueStep(2 * W, Masked(2 * W, vs));
      var rest := ValueOf(W, words[2..]);
      Scale(Pow2(W), Pow2(W), Shr(vs[0], W), rest);
      assert forall j :: 0 <= j < |words| ==> words[j] < Pow2(W) by {
        assert forall j :: 2 <= j < |words| ==> words[j] == words[2..][j - 2];
      }
    }
  }

  lemma PairOfWords(W: nat, v: nat)
    requires v < Pow2(2 * W)
    ensures Shr(v, W) < Pow2(W) && Wrap(2 * W, v) == v && v == Wrap(W, v) + Pow2(W) * Shr(v, W)
  {
    hide Pow2;
    Pow2Add(W, W);
    assert W + W == 2 * W;
    WrapOfSmall(2 * W, v);
    HighWord(v, Pow2(W));
  }

  lemma HighWord(v: nat, p: int)
    requires p > 0 && v < p * p
    ensures v / p < p && v == v % p + p * (v / p)
  {
    DivBelow(v, p, p);
    DivMod(v, p);
  }

  /** No words hold lanes of width zero. */
  lemma {:induction false} ZeroWidth(vs: seq<nat>)
    ensures ValueOf(0, Masked(0, vs)) == 0
  {
    if vs != [] {
      ZeroWidth(vs[1..]);
      assert Masked(0, vs)[1..] == Masked(0, vs[1..]);
    }
  }
}

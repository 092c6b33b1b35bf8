/** fastpforlib's bit unpacking: lane j of a buffer of W-bit words is its D-bit field at bit j*D. */
module BitUnpacking {
  import opened Words
  import opened Bits
  import opened WideArithmetic
  import opened Digits
  import opened BitPacking

  // ---------- one lane ----------

  /** Or-ing two parts whose bits do not meet. */
  function Joined(low: nat, high: nat, c: nat): (r: nat) {
    MulNonneg(high, Pow2(c));
    Or(low, high * Pow2(c))
  }

  /** unpack_single_out on 8-, 16- and 32-bit elements; the second component is the word pointer left behind. */
  function UnpackSingle(W: nat, D: nat, s: nat, words: seq<nat>, k: nat): (r: (nat, nat))
    requires 0 < D < W && s < W && k < |words| && (D + s >= W ==> k + 1 < |words|)
  {
    if D + s < W then (Wrap(D, Shr(words[k], s)), k)
    else (Joined(Shr(words[k], s), Wrap(D + s - W, words[k + 1]), W - s), k + 1)
  }

  /** unpack_single_out on 64-bit elements held in 32-bit words. */
  function UnpackSingle64(W: nat, D: nat, s: nat, words: seq<nat>, k: nat): (r: (nat, nat))
    requires 0 < D < 2 * W && s < W && k < |words|
    requires (D + s > W ==> k + 1 < |words|) && (D + s > 2 * W ==> k + 2 < |words|)
  {
    var low := Shr(words[k], s);
    if D + s < W then (Wrap(D, low), k)
    else if D + s < 2 * W then
      (if D + s > W then Joined(low, Wrap(D + s - W, words[k + 1]), W - s) else low, k + 1)
    else
      var two := Joined(low, words[k + 1], W - s);
      (if D + s > 2 * W then Joined(two, Wrap(D + s - 2 * W, words[k + 2]), 2 * W - s) else two, k + 2)
  }

  lemma JoinedIsSum(low: nat, high: nat, c: nat)
    requires low < Pow2(c)
    ensures Joined(low, high, c) == low + Pow2(c) * high
  {
    OrDisjoint(low, high, c);
  }

  lemma ShiftedWordBound(W: nat, w: nat, s: nat)
    requires s <= W && w < Pow2(W)
    ensures Shr(w, s) < Pow2(W - s)
  {
    Pow2Add(s, W - s);
    hide Pow2;
    DivBelow(w, Pow2(s), Pow2(W - s));
  }

  /** A field inside one word. */
  lemma FieldInWord(W: nat, words: seq<nat>, k: nat, s: nat, D: nat)
    requires AreDigits(W, words) && k < |words| && s + D <= W
    ensures k * W >= 0 && Field(ValueOf(W, words), k * W + s, D) == Wrap(D, Shr(words[k], s))
    ensures s + D == W ==> Wrap(D, Shr(words[k], s)) == Shr(words[k], s)
  {
    hide Pow2, ValueOf, Field;
    FieldSplit(W, words, k, s, D);
    if s + D == W {
      ShiftedWordBound(W, words[k], s);
      WrapOfSmall(D, Shr(words[k], s));
    }
  }

  /** A field over two words. */
  lemma FieldInTwoWords(W: nat, words: seq<nat>, k: nat, s: nat, D: nat)
    requires AreDigits(W, words) && k + 1 < |words| && s < W <= s + D <= 2 * W
    ensures k * W >= 0
    ensures Field(ValueOf(W, words), k * W + s, D)
            == Joined(Shr(words[k], s), Wrap(D + s - W, words[k + 1]), W - s)
  {
    hide Pow2, ValueOf, Field, Joined;
    FieldSplit(W, words, k, s, D);
    LowBits(W, words[k + 1..], D + s - W);
    ShiftedWordBound(W, words[k], s);
    JoinedIsSum(Shr(words[k], s), Wrap(D + s - W, words[k + 1]), W - s);
  }

  /** A field over three words. */
  lemma FieldInThreeWords(W: nat, words: seq<nat>, k: nat, s: nat, D: nat)
    requires AreDigits(W, words) && k + 2 < |words| && s < W && 2 * W <= s + D <= 3 * W
    ensures k * W >= 0
    ensures Field(ValueOf(W, words), k * W + s, D)
            == Joined(Joined(Shr(words[k], s), words[k + 1], W - s), Wrap(D + s - 2 * W, words[k + 2]), 2 * W - s)
  {
    hide Pow2, ValueOf, Field, Joined;
    var low := Shr(words[k], s);
    var top := Wrap(D + s - 2 * W, words[k + 2]);
    FieldSplit(W, words, k, s, D);
    LowBits(W, words[k + 1..], D + s - W);
    assert words[k + 1..][1..] == words[k + 2..];
    LowBits(W, words[k + 2..], D + s - 2 * W);
    ShiftedWordBound(W, words[k], s);
    JoinedIsSum(low, words[k + 1], W - s);
    Pow2Add(W - s, W);
    TwoParts(low, words[k + 1], Pow2(W - s), Pow2(W));
    JoinedIsSum(low + Pow2(W - s) * words[k + 1], top, 2 * W - s);
    Scale(Pow2(W - s), Pow2(W), words[k + 1], top);
  }

  lemma TwoParts(low: int, high: int, c: int, d: int)
    requires 0 <= low < c && 0 <= high < d
    ensures 0 <= low + c * high < c * d
  {
    MulMono(high + 1, d, c);
    MulNonneg(c, high);
  }

  lemma UnpackSingleIsField(W: nat, D: nat, s: nat, words: seq<nat>, k: nat)
    requires 0 < D < W && s < W && AreDigits(W, words) && k < |words| && (D + s >= W ==> k + 1 < |words|)
    ensures k * W >= 0
    ensures UnpackSingle(W, D, s, words, k) == (Field(ValueOf(W, words), k * W + s, D), Advance(W, k, s, D).0)
  {
    hide Pow2, ValueOf, Field, Joined;
    if D + s < W {
      FieldInWord(W, words, k, s, D);
    } else {
      FieldInTwoWords(W, words, k, s, D);
    }
  }

  lemma UnpackSingle64IsField(W: nat, D: nat, s: nat, words: seq<nat>, k: nat)
    requires 0 < D < 2 * W && s < W && AreDigits(W, words) && k < |words|
    requires (D + s > W ==> k + 1 < |words|) && (D + s > 2 * W ==> k + 2 < |words|)
    ensures k * W >= 0
    ensures UnpackSingle64(W, D, s, words, k) == (Field(ValueOf(W, words), k * W + s, D), Advance(W, k, s, D).0)
  {
    hide Pow2, ValueOf, Field, Joined, Wrap;
    if D + s <= W {
      FieldInWord(W, words, k, s, D);
    } else if D + s < 2 * W {
      FieldInTwoWords(W, words, k, s, D);
    } else if D + s == 2 * W {
      FieldInTwoWords(W, words, k, s, D);
      WrapOfSmall(W, words[k + 1]);
    } else {
      FieldInThreeWords(W, words, k, s, D);
    }
  }

  // ---------- a block ----------

  /** out[base + j] is field j of the words. */
  ghost predicate LaneIs(W: nat, D: nat, words: seq<nat>, out: seq<nat>, base: nat, j: nat) {
    base + j < |out| && j * D >= 0 && out[base + j] == Field(ValueOf(W, words), j * D, D)
  }

  /** out[base..] holds the first n fields of the words. */
  ghost predicate Unpacked(W: nat, D: nat, words: seq<nat>, out: seq<nat>, base: nat, n: nat) {
    base + n <= |out| && forall j: nat :: j < n ==> LaneIs(W, D, words, out, base, j)
  }

  lemma UnpackedMore(W: nat, D: nat, words: seq<nat>, before: seq<nat>, after: seq<nat>, base: nat, n: nat)
    requires Unpacked(W, D, words, before, base, n) && base + n < |before|
    requires n * D >= 0 && after == before[base + n := Field(ValueOf(W, words), n * D, D)]
    ensures Unpacked(W, D, words, after, base, n + 1)
  {
    hide Field, ValueOf;
    forall j: nat | j < n + 1
      ensures LaneIs(W, D, words, after, base, j)
    {
      if j < n {
        assert LaneIs(W, D, words, before, base, j);
      }
    }
  }

  /** Where lane i of W starts, and the words it needs. */
  lemma LaneAt(W: nat, D: nat, k: nat, s: nat, i: nat)
    requires 0 < D < 2 * W && s < W && i < W && BitOf(W, D, k, s, i)
    ensures D * i >= 0 && s == (D * i) % W && k < D
    ensures (D + s > W ==> k + 1 < D) && (D + s > 2 * W ==> k + 2 < D)
    ensures i < W - 1 ==> (D + s >= W ==> k + 1 < D) && (D + s >= 2 * W ==> k + 2 < D)
    ensures i == W - 1 ==> if D < W then s + D == W else if D > W then s + D == 2 * W else s == 0
  {
    hide BitOf;
    LaneShift(W, D, k, s, i);
    LaneWords(W, D, k, s, i);
    if i == W - 1 {
      LaneEnds(W, D, k, s, i);
    }
  }

  /** Lane i starts at bit s of word k. */
  ghost predicate BitOf(W: nat, D: nat, k: nat, s: nat, i: nat) {
    k * W + s == i * D
  }

  lemma LaneShift(W: nat, D: nat, k: nat, s: nat, i: nat)
    requires s < W && BitOf(W, D, k, s, i)
    ensures D * i >= 0 && s == (D * i) % W
  {
    MulNonneg(D, i);
    MulComm(D, i);
    DivUnique(D * i, W, k, s);
  }

  lemma LaneWords(W: nat, D: nat, k: nat, s: nat, i: nat)
    requires 0 < D < 2 * W && s < W && i < W && BitOf(W, D, k, s, i)
    ensures k < D && (D + s > W ==> k + 1 < D) && (D + s > 2 * W ==> k + 2 < D)
    ensures i < W - 1 ==> (D + s >= W ==> k + 1 < D) && (D + s >= 2 * W ==> k + 2 < D)
  {
    var (k', s') := Advance(W, k, s, D);
    Landing(W, D, k, s, i);
    MulMono(i + 1, W, D);
    MulComm(W, D);
    if i < W - 1 {
      MulStrict(i + 1, W, D);
    }
    WordsReached(W, D, k', s', (i + 1) * D);
  }

  lemma LaneEnds(W: nat, D: nat, k: nat, s: nat, i: nat)
    requires 0 < D < 2 * W && s < W && i == W - 1 && BitOf(W, D, k, s, i)
    ensures if D < W then s + D == W else if D > W then s + D == 2 * W else s == 0
  {
    MulComm(W, D);
    assert (i + 1) * D == i * D + D;
    LastBits(W, D, k, s, i * D);
  }

  /** A bit position inside D words lies in a word before the D-th, or exactly at its end. */
  lemma WordsReached(W: nat, D: nat, k: nat, s: nat, bits: nat)
    requires s < W && k * W + s == bits && bits <= D * W
    ensures k <= D && (k == D ==> s == 0 && bits == D * W) && (bits < D * W ==> k < D)
  {
    assert (D + 1) * W == D * W + W;
    if k >= D {
      MulMono(D, k, W);
    }
    if k > D {
      MulMono(D + 1, k, W);
    }
  }

  lemma LastBits(W: nat, D: nat, k: nat, s: nat, bits: nat)
    requires 0 < D < 2 * W && s < W && k * W + s == bits && bits + D == D * W
    ensures if D < W then s + D == W else if D > W then s + D == 2 * W else s == 0
  {
    assert (D - k) * W == D * W - k * W;
    FewWords(s + D, D - k, W);
  }

  /** Unroller8/16/32::Unpack. */
  method UnpackLanes(W: nat, D: nat, words: seq<nat>, out: array<nat>, base: nat)
    requires 0 < D < W && |words| == D && AreDigits(W, words) && base + W <= out.Length
    modifies out
    ensures Unpacked(W, D, words, out[..], base, W)
    ensures SameOutside(old(out[..]), out[..], base, base + W)
  {
    hide Pow2, ValueOf, Field, Wrap, AreDigits, Unpacked;
    assert Unpacked(W, D, words, out[..], base, 0) by { NothingUnpacked(W, D, words, out[..], base); }
    var k: nat := 0;
    ghost var s: nat := 0;
    var i := 0;
    while i < W - 1
      invariant 0 <= i <= W - 1 && s < W && k * W + s == i * D
      invariant Unpacked(W, D, words, out[..], base, i)
      invariant SameOutside(old(out[..]), out[..], base, base + W)
    {
      LaneAt(W, D, k, s, i);
      UnpackSingleIsField(W, D, s, words, k);
      Landing(W, D, k, s, i);
      UnpackedMore(W, D, words, out[..], out[..][base + i := Field(ValueOf(W, words), i * D, D)], base, i);
      ghost var after := out[..][base + i := Field(ValueOf(W, words), i * D, D)];
      var lane := UnpackSingle(W, D, (D * i) % W, words, k);
      out[base + i] := lane.0;
      assert out[..] == after;
      s := Advance(W, k, s, D).1;
      k := lane.1;
      i := i + 1;
    }
    LaneAt(W, D, k, s, W - 1);
    FieldInWord(W, words, k, s, D);
    UnpackedMore(W, D, words, out[..], out[..][base + W - 1 := Field(ValueOf(W, words), (W - 1) * D, D)], base, W - 1);
    ghost var after := out[..][base + W - 1 := Field(ValueOf(W, words), (W - 1) * D, D)];
    out[base + W - 1] := Shr(words[k], (D * (W - 1)) % W);
    assert out[..] == after;
  }

  lemma NothingUnpacked(W: nat, D: nat, words: seq<nat>, out: seq<nat>, base: nat)
    requires base <= |out|
    ensures Unpacked(W, D, words, out, base, 0)
  {
  }

  /** Unroller::Unpack into 64-bit elements. */
  method UnpackLanes64(W: nat, D: nat, words: seq<nat>, out: array<nat>, base: nat)
    requires 0 < D < 2 * W && D != W && |words| == D && AreDigits(W, words) && base + W <= out.Length
    modifies out
    ensures Unpacked(W, D, words, out[..], base, W)
    ensures SameOutside(old(out[..]), out[..], base, base + W)
  {
    hide Pow2, ValueOf, Field, Wrap, AreDigits, Unpacked;
    NothingUnpacked(W, D, words, out[..], base);
    var k: nat := 0;
    ghost var s: nat := 0;
    var i := 0;
    while i < W - 1
      invariant 0 <= i <= W - 1 && s < W && k * W + s == i * D
      invariant Unpacked(W, D, words, out[..], base, i)
      invariant SameOutside(old(out[..]), out[..], base, base + W)
    {
      LaneAt(W, D, k, s, i);
      UnpackSingle64IsField(W, D, s, words, k);
      Landing(W, D, k, s, i);
      ghost var after := out[..][base + i := Field(ValueOf(W, words), i * D, D)];
      UnpackedMore(W, D, words, out[..], after, base, i);
      var lane := UnpackSingle64(W, D, (D * i) % W, words, k);
      out[base + i] := lane.0;
      assert out[..] == after;
      s := Advance(W, k, s, D).1;
      k := lane.1;
      i := i + 1;
    }
    LaneAt(W, D, k, s, W - 1);
    LastField64(W, D, words, k, s);
    ghost var after := out[..][base + W - 1 := Field(ValueOf(W, words), (W - 1) * D, D)];
    UnpackedMore(W, D, words, out[..], after, base, W - 1);
    var shift := (D * (W - 1)) % W;
    out[base + W - 1] := Shr(words[k], shift);
    if D > W {
      out[base + W - 1] := Joined(out[base + W - 1], words[k + 1], W - shift);
    }
    assert out[..] == after;
  }

  lemma LastField64(W: nat, D: nat, words: seq<nat>, k: nat, s: nat)
    requires AreDigits(W, words) && s < W && k < |words| && (D > W ==> k + 1 < |words|)
    requires D + s == if D < W then W else 2 * W
    ensures k * W >= 0
    ensures Field(ValueOf(W, words), k * W + s, D)
            == if D > W then Joined(Shr(words[k], s), words[k + 1], W - s) else Shr(words[k], s)
  {
    hide Pow2, ValueOf, Field, Wrap, Joined;
    if D > W {
      FieldInTwoWords(W, words, k, s, D);
      WrapOfSmall(W, words[k + 1]);
    } else {
      FieldInWord(W, words, k, s, D);
    }
  }

  // ---------- the widths handled by plain loops ----------

  /** The nested loops used when D divides W: every word holds whole lanes. */
  method UnpackAligned(W: nat, D: nat, words: seq<nat>, out: array<nat>, base: nat)
    requires 0 < D < W && W % D == 0 && |words| == D && AreDigits(W, words) && base + W <= out.Length
    modifies out
    ensures Unpacked(W, D, words, out[..], base, W)
    ensures SameOutside(old(out[..]), out[..], base, base + W)
  {
    hide Pow2, ValueOf, Field, Wrap, AreDigits, Unpacked, SameOutside;
    NothingUnpacked(W, D, words, out[..], base);
    SameAtStart(out[..], base, base + W);
    var o: nat := 0;
    var outer := 0;
    while outer < D
      invariant 0 <= outer <= D && o * D == outer * W
      invariant Unpacked(W, D, words, out[..], base, o)
      invariant SameOutside(old(out[..]), out[..], base, base + W)
    {
      o := UnpackWord(W, D, words, out, base, outer, o, old(out[..]));
      outer := outer + 1;
    }
    MulComm(D, W);
    SameFactor(o, W, D);
  }

  lemma SameFactor(x: int, y: int, z: int)
    requires z > 0 && x * z == y * z
    ensures x == y
  {
    DivUnique(x * z, z, x, 0);
    DivUnique(y * z, z, y, 0);
  }

  /** The inner loop: the lanes of one word. */
  method UnpackWord(W: nat, D: nat, words: seq<nat>, out: array<nat>, base: nat, outer: nat, start: nat,
                    ghost first: seq<nat>)
    returns (o: nat)
    requires 0 < D < W && W % D == 0 && |words| == D && AreDigits(W, words) && base + W <= out.Length && outer < D
    requires start * D == outer * W && Unpacked(W, D, words, out[..], base, start)
    requires SameOutside(first, out[..], base, base + W)
    modifies out
    ensures o * D == (outer + 1) * W && Unpacked(W, D, words, out[..], base, o)
    ensures SameOutside(first, out[..], base, base + W)
  {
    hide Pow2, ValueOf, Field, Wrap, AreDigits, Unpacked;
    ghost var n: nat := W / D;
    DivMod(W, D);
    o := start;
    var p: nat := 0;
    while p < W
      invariant p + n * D == W && o * D == outer * W + p
      invariant Unpacked(W, D, words, out[..], base, o)
      invariant SameOutside(first, out[..], base, base + W)
    {
      WholeLane(W, D, o, outer, p, n);
      FieldInWord(W, words, outer, p, D);
      ghost var after := out[..][base + o := Field(ValueOf(W, words), o * D, D)];
      UnpackedMore(W, D, words, out[..], after, base, o);
      out[base + o] := Wrap(D, Shr(words[outer], p));
      assert out[..] == after;
      o, p, n := o + 1, p + D, n - 1;
    }
    assert (outer + 1) * W == outer * W + W;
  }

  /** The lane at bit p of a word lies inside the word and inside the block. */
  lemma WholeLane(W: nat, D: nat, o: nat, outer: nat, p: nat, n: nat)
    requires 0 < D < W && p < W && p + n * D == W && outer < D && o * D == outer * W + p
    ensures n > 0 && p + D <= W && o < W && p + D + (n - 1) * D == W && (o + 1) * D == outer * W + p + D
  {
    if n > 0 {
      MulMono(1, n, D);
    }
    MulMono(outer + 1, D, W);
    MulCancelLt(o, W, D);
  }

  /** One word per value. */
  method UnpackWhole(W: nat, words: seq<nat>, out: array<nat>, base: nat)
    requires |words| == W && AreDigits(W, words) && base + W <= out.Length
    modifies out
    ensures Unpacked(W, W, words, out[..], base, W)
    ensures SameOutside(old(out[..]), out[..], base, base + W)
  {
    hide Pow2, ValueOf, Field;
    var k := 0;
    while k < W
      invariant 0 <= k <= W && Unpacked(W, W, words, out[..], base, k)
      invariant SameOutside(old(out[..]), out[..], base, base + W)
    {
      DigitIsField(W, words, k);
      UnpackedMore(W, W, words, out[..], out[..][base + k := Field(ValueOf(W, words), k * W, W)], base, k);
      ghost var after := out[..][base + k := words[k]];
      out[base + k] := words[k];
      assert out[..] == after;
      k := k + 1;
    }
  }

  /** __fastunpack64: two words per value. */
  method UnpackWhole64(W: nat, words: seq<nat>, out: array<nat>, base: nat)
    requires W > 0 && |words| == 2 * W && AreDigits(W, words) && base + W <= out.Length
    modifies out
    ensures Unpacked(W, 2 * W, words, out[..], base, W)
    ensures SameOutside(old(out[..]), out[..], base, base + W)
  {
    hide Pow2, ValueOf, Field, Joined, Unpacked, AreDigits;
    NothingUnpacked(W, 2 * W, words, out[..], base);
    var k := 0;
    while k < W
      invariant 0 <= k <= W && Unpacked(W, 2 * W, words, out[..], base, k)
      invariant SameOutside(old(out[..]), out[..], base, base + W)
    {
      PairField(W, words, k);
      ghost var after := out[..][base + k := Field(ValueOf(W, words), k * (2 * W), 2 * W)];
      UnpackedMore(W, 2 * W, words, out[..], after, base, k);
      out[base + k] := words[2 * k];
      out[base + k] := Joined(out[base + k], words[2 * k + 1], W);
      assert out[..] == after;
      k := k + 1;
    }
  }

  lemma PairField(W: nat, words: seq<nat>, k: nat)
    requires 0 < W && 2 * k + 1 < |words| && AreDigits(W, words)
    ensures k * (2 * W) >= 0
    ensures Field(ValueOf(W, words), k * (2 * W), 2 * W) == Joined(words[2 * k], words[2 * k + 1], W)
  {
    assert Shr(words[2 * k], 0) == words[2 * k];
    hide Pow2, ValueOf, Field, Joined, Wrap, Shr;
    assert (2 * k) * W + 0 == k * (2 * W);
    FieldInTwoWords(W, words, 2 * k, 0, 2 * W);
    WrapOfSmall(W, words[2 * k + 1]);
  }

  /** __fastunpack0: width zero yields zeros. */
  method UnpackZero(W: nat, words: seq<nat>, out: array<nat>, base: nat)
    requires base + W <= out.Length
    modifies out
    ensures Unpacked(W, 0, words, out[..], base, W)
    ensures SameOutside(old(out[..]), out[..], base, base + W)
  {
    hide ValueOf, Unpacked;
    NothingUnpacked(W, 0, words, out[..], base);
    var k := 0;
    while k < W
      invariant 0 <= k <= W && Unpacked(W, 0, words, out[..], base, k)
      invariant SameOutside(old(out[..]), out[..], base, base + W)
    {
      ghost var after := out[..][base + k := 0];
      assert Field(ValueOf(W, words), k * 0, 0) == 0;
      UnpackedMore(W, 0, words, out[..], after, base, k);
      out[base + k] := 0;
      assert out[..] == after;
      k := k + 1;
    }
  }

  // ---------- packing and unpacking are inverse ----------

  /** Unpacking packed lanes gives back their low D bits. */
  lemma PackedLane(W: nat, D: nat, words: seq<nat>, vs: seq<nat>, j: nat)
    requires Packed(W, D, words, vs) && j < |vs|
    ensures j * D >= 0 && Field(ValueOf(W, words), j * D, D) == Wrap(D, vs[j])
  {
    hide Pow2, ValueOf, Field;
    DigitIsField(D, Masked(D, vs), j);
  }

  ghost predicate FieldAt(D: nat, X: nat, fields: seq<nat>, j: nat) {
    j < |fields| && j * D >= 0 && fields[j] == Field(X, j * D, D)
  }

  /** The fields of a value below bit n*D rebuild its low n*D bits. */
  lemma {:induction false} FieldsRebuild(D: nat, X: nat, fields: seq<nat>)
    requires forall j: nat :: j < |fields| ==> FieldAt(D, X, fields, j)
    ensures |fields| * D >= 0 && ValueOf(D, fields) == X % Pow2(|fields| * D)
  {
    if fields == [] {
    } else {
      hide Pow2, ValueOf;
      var n := |fields| - 1;
      forall j: nat | j < n
        ensures FieldAt(D, X, fields[..n], j)
      {
        assert FieldAt(D, X, fields, j);
      }
      assert FieldAt(D, X, fields, n);
      FieldsRebuild(D, X, fields[..n]);
      LaneValue(D, fields, n);
      assert fields[..n + 1] == fields;
      RebuildNext(D, X, n, ValueOf(D, fields[..n]), fields[n], ValueOf(D, fields));
    }
  }

  lemma RebuildNext(D: nat, X: nat, n: nat, low: nat, field: nat, value: nat)
    requires n * D >= 0 && low == X % Pow2(n * D) && field == Field(X, n * D, D)
    requires value == low + field * Pow2(n * D)
    ensures (n + 1) * D >= 0 && value == X % Pow2((n + 1) * D)
  {
    hide Pow2;
    assert (n + 1) * D == n * D + D;
    Pow2Add(n * D, D);
    RebuildStep(X, Pow2(n * D), Pow2(D));
  }

  lemma RebuildStep(X: int, p: int, q: int)
    requires p > 0 && q > 0
    ensures p * q > 0 && X % p + ((X / p) % q) * p == X % (p * q)
  {
    DivMod(X, p);
    ModOfPair(X % p, X / p, p, q);
    MulComm(X / p, p);
    MulComm((X / p) % q, p);
  }

  /** Digit sequences of one length are equal when their values are. */
  lemma SameValueSameDigits(W: nat, a: seq<nat>, b: seq<nat>)
    requires AreDigits(W, a) && AreDigits(W, b) && |a| == |b| && ValueOf(W, a) == ValueOf(W, b)
    ensures a == b
  {
    forall i | 0 <= i < |a|
      ensures a[i] == b[i]
    {
      DigitIsField(W, a, i);
      DigitIsField(W, b, i);
    }
  }

  /** Packing the lanes of D words gives back the words. */
  lemma RepackedWords(W: nat, D: nat, words: seq<nat>, vs: seq<nat>, words': seq<nat>)
    requires |words| == |words'| == D && |vs| == W && AreDigits(W, words)
    requires Unpacked(W, D, words, vs, 0, W) && Packed(W, D, words', vs)
    ensures words' == words
  {
    var X := ValueOf(W, words);
    hide ValueOf, Pow2, Field;
    forall j: nat | j < W
      ensures FieldAt(D, X, vs, j) && Wrap(D, vs[j]) == vs[j]
    {
      assert LaneIs(W, D, words, vs, 0, j);
      WrapOfSmall(D, vs[j]);
    }
    assert Masked(D, vs) == vs;
    FieldsRebuild(D, X, vs);
    ValueBound(W, words);
    assert D * W == W * D;
    WrapOfSmall(W * D, X);
    SameValueSameDigits(W, words, words');
  }
}

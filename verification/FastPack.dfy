/** fastpforlib's entry points: 32 values of 8, 16, 32 or 64 bits to and from `bit` bits each.
    8-bit values go in four groups of 8, 16-bit values in two groups of 16. A width above
    the element size throws; the model returns false. */
module FastPack {
  import opened Words
  import opened Digits
  import opened BitPacking
  import opened BitUnpacking

  /** Element widths of the same-type overloads; a group has as many lanes as a word has bits. */
  predicate IsElement(W: nat) {
    W == 8 || W == 16 || W == 32
  }

  function Groups(W: nat): (g: nat)
    requires IsElement(W)
    ensures g * W == 32
  {
    if W == 8 then 4 else if W == 16 then 2 else 1
  }

  // ---------- one group ----------

  /** fastpack_quarter, fastpack_half and the 32-bit fastpack. */
  method PackGroup(W: nat, bit: nat, vs: seq<nat>, out: array<nat>, base: nat) returns (ok: bool)
    requires W > 0 && |vs| == W && (bit <= W ==> base + bit <= out.Length)
    modifies out
    ensures ok == (bit <= W)
    ensures ok ==> Packed(W, bit, out[base..base + bit], vs) && SameOutside(old(out[..]), out[..], base, base + bit)
    ensures !ok ==> out[..] == old(out[..])
  {
    if bit > W {
      return false;
    }
    ok := true;
    if bit == 0 {
      ZeroWidth(vs);
    } else if bit == W {
      PackWhole(W, vs, out, base);
    } else {
      PackLanes(W, bit, vs, out, base);
    }
  }

  /** fastunpack_quarter, fastunpack_half and the 32-bit fastunpack. */
  method UnpackGroup(W: nat, bit: nat, words: seq<nat>, out: array<nat>, base: nat) returns (ok: bool)
    requires IsElement(W) && (bit <= W ==> |words| == bit && AreDigits(W, words)) && base + W <= out.Length
    modifies out
    ensures ok == (bit <= W)
    ensures ok ==> Unpacked(W, bit, words, out[..], base, W) && SameOutside(old(out[..]), out[..], base, base + W)
    ensures !ok ==> out[..] == old(out[..])
  {
    hide AreDigits, Unpacked;
    if bit > W {
      return false;
    }
    ok := true;
    if bit == 0 {
      UnpackZero(W, words, out, base);
    } else if bit == W {
      UnpackWhole(W, words, out, base);
    } else if bit == 4 || bit == 8 || bit == 16 {
      UnpackAligned(W, bit, words, out, base);
    } else {
      UnpackLanes(W, bit, words, out, base);
    }
  }

  // ---------- 32 values ----------

  /** Group g of the buffer holds group g of the values. */
  ghost predicate GroupPacked(W: nat, bit: nat, buffer: seq<nat>, vs: seq<nat>, g: nat) {
    && 0 <= g * bit <= (g + 1) * bit <= |buffer| && 0 <= g * W <= (g + 1) * W <= |vs|
    && Packed(W, bit, buffer[g * bit..(g + 1) * bit], vs[g * W..(g + 1) * W])
  }

  ghost predicate GroupUnpacked(W: nat, bit: nat, words: seq<nat>, out: seq<nat>, g: nat) {
    && 0 <= g * bit <= (g + 1) * bit <= |words| && 0 <= g * W
    && Unpacked(W, bit, words[g * bit..(g + 1) * bit], out, g * W, W)
  }

  ghost predicate AllPacked(W: nat, bit: nat, buffer: seq<nat>, vs: seq<nat>)
    requires IsElement(W)
  {
    forall g :: 0 <= g < Groups(W) ==> GroupPacked(W, bit, buffer, vs, g)
  }

  ghost predicate AllUnpacked(W: nat, bit: nat, words: seq<nat>, out: seq<nat>)
    requires IsElement(W)
  {
    forall g :: 0 <= g < Groups(W) ==> GroupUnpacked(W, bit, words, out, g)
  }

  /** Where group g starts and ends. */
  lemma GroupBounds(g: nat, n: nat, bit: nat)
    requires g < n
    ensures 0 <= g * bit <= (g + 1) * bit <= n * bit
    ensures (g + 1) * bit == g * bit + bit
  {
    MulNonneg(g, bit);
    MulMono(g + 1, n, bit);
  }

  lemma GroupKept(W: nat, bit: nat, before: seq<nat>, after: seq<nat>, vs: seq<nat>, g: nat, lo: nat, hi: nat)
    requires GroupPacked(W, bit, before, vs, g) && SameOutside(before, after, lo, hi) && (g + 1) * bit <= lo
    ensures GroupPacked(W, bit, after, vs, g)
  {
    assert after[g * bit..(g + 1) * bit] == before[g * bit..(g + 1) * bit];
  }

  lemma GroupStillUnpacked(W: nat, bit: nat, words: seq<nat>, before: seq<nat>, after: seq<nat>, g: nat, lo: nat, hi: nat)
    requires GroupUnpacked(W, bit, words, before, g) && SameOutside(before, after, lo, hi) && g * W + W <= lo <= |before|
    ensures GroupUnpacked(W, bit, words, after, g)
  {
    StillUnpacked(W, bit, words[g * bit..(g + 1) * bit], before, after, g * W, lo, hi);
  }

  lemma StillUnpacked(W: nat, bit: nat, words: seq<nat>, before: seq<nat>, after: seq<nat>, base: nat, lo: nat, hi: nat)
    requires Unpacked(W, bit, words, before, base, W) && SameOutside(before, after, lo, hi) && base + W <= lo <= |before|
    ensures Unpacked(W, bit, words, after, base, W)
  {
    hide Field, ValueOf;
    forall j: nat | j < W
      ensures LaneIs(W, bit, words, after, base, j)
    {
      assert LaneIs(W, bit, words, before, base, j);
    }
  }

  /** fastpack on 8-, 16- and 32-bit values. */
  method Pack(W: nat, bit: nat, vs: seq<nat>, out: array<nat>) returns (ok: bool)
    requires IsElement(W) && |vs| == 32 && (bit <= W ==> Groups(W) * bit <= out.Length)
    modifies out
    ensures ok == (bit <= W)
    ensures ok ==> AllPacked(W, bit, out[..], vs) && SameOutside(old(out[..]), out[..], 0, Groups(W) * bit)
    ensures !ok ==> out[..] == old(out[..])
  {
    hide Packed;
    var g := 0;
    ok := bit <= W;
    while g < Groups(W)
      invariant 0 <= g <= Groups(W)
      invariant ok == (bit <= W)
      invariant !ok ==> out[..] == old(out[..])
      invariant ok ==> forall h :: 0 <= h < g ==> GroupPacked(W, bit, out[..], vs, h)
      invariant ok ==> SameOutside(old(out[..]), out[..], 0, Groups(W) * bit)
    {
      GroupBounds(g, Groups(W), bit);
      GroupBounds(g, Groups(W), W);
      ghost var before := out[..];
      ok := PackGroup(W, bit, vs[g * W..(g + 1) * W], out, g * bit);
      if ok {
        PackedSoFar(W, bit, before, out[..], vs, g);
      } else {
        return;
      }
      g := g + 1;
    }
  }

  lemma PackedSoFar(W: nat, bit: nat, before: seq<nat>, after: seq<nat>, vs: seq<nat>, g: nat)
    requires forall h :: 0 <= h < g ==> GroupPacked(W, bit, before, vs, h)
    requires g * bit >= 0 && SameOutside(before, after, g * bit, g * bit + bit)
    requires GroupPacked(W, bit, after, vs, g)
    ensures forall h :: 0 <= h < g + 1 ==> GroupPacked(W, bit, after, vs, h)
  {
    hide Packed;
    forall h | 0 <= h < g + 1
      ensures GroupPacked(W, bit, after, vs, h)
    {
      if h < g {
        GroupBounds(h, g, bit);
        GroupKept(W, bit, before, after, vs, h, g * bit, g * bit + bit);
      }
    }
  }

  /** fastunpack on 8-, 16- and 32-bit values. */
  method Unpack(W: nat, bit: nat, words: seq<nat>, out: array<nat>) returns (ok: bool)
    requires IsElement(W) && out.Length >= 32
    requires bit <= W ==> |words| == Groups(W) * bit && AreDigits(W, words)
    modifies out
    ensures ok == (bit <= W)
    ensures ok ==> AllUnpacked(W, bit, words, out[..]) && SameOutside(old(out[..]), out[..], 0, 32)
    ensures !ok ==> out[..] == old(out[..])
  {
    hide Unpacked, Pow2;
    var g := 0;
    ok := bit <= W;
    while g < Groups(W)
      invariant 0 <= g <= Groups(W)
      invariant ok == (bit <= W)
      invariant !ok ==> out[..] == old(out[..])
      invariant ok ==> forall h :: 0 <= h < g ==> GroupUnpacked(W, bit, words, out[..], h)
      invariant ok ==> SameOutside(old(out[..]), out[..], 0, 32)
    {
      GroupBounds(g, Groups(W), bit);
      GroupBounds(g, Groups(W), W);
      ghost var before := out[..];
      if bit > W {
        ok := UnpackGroup(W, bit, [], out, g * W);
        return;
      }
      ok := UnpackGroup(W, bit, words[g * bit..(g + 1) * bit], out, g * W);
      UnpackedSoFar(W, bit, words, before, out[..], g);
      g := g + 1;
    }
  }

  lemma UnpackedSoFar(W: nat, bit: nat, words: seq<nat>, before: seq<nat>, after: seq<nat>, g: nat)
    requires forall h :: 0 <= h < g ==> GroupUnpacked(W, bit, words, before, h)
    requires 0 <= g * W <= |before| && SameOutside(before, after, g * W, g * W + W)
    requires GroupUnpacked(W, bit, words, after, g)
    ensures forall h :: 0 <= h < g + 1 ==> GroupUnpacked(W, bit, words, after, h)
  {
    hide Unpacked;
    forall h | 0 <= h < g + 1
      ensures GroupUnpacked(W, bit, words, after, h)
    {
      if h < g {
        GroupBounds(h, g, W);
        GroupStillUnpacked(W, bit, words, before, after, h, g * W, g * W + W);
      }
    }
  }

  /** fastpack on 64-bit values; the words are 32 bits wide. */
  method Pack64(bit: nat, vs: seq<nat>, out: array<nat>) returns (ok: bool)
    requires |vs| == 32 && AreDigits(64, vs) && (bit <= 64 ==> bit <= out.Length)
    modifies out
    ensures ok == (bit <= 64)
    ensures ok ==> Packed(32, bit, out[..bit], vs) && SameOutside(old(out[..]), out[..], 0, bit)
    ensures !ok ==> out[..] == old(out[..])
  {
    hide Pow2;
    if bit > 64 {
      return false;
    }
    ok := true;
    if bit == 0 {
      ZeroWidth(vs);
    } else if bit == 32 {
      PackWhole(32, vs, out, 0);
      assert out[0..32] == out[..32];
    } else if bit == 64 {
      PackWhole64(32, vs, out, 0);
      assert out[0..64] == out[..64];
    } else {
      PackLanes64(32, bit, vs, out, 0);
      assert out[0..bit] == out[..bit];
    }
  }

  method Unpack64(bit: nat, words: seq<nat>, out: array<nat>) returns (ok: bool)
    requires out.Length >= 32 && (bit <= 64 ==> |words| == bit && AreDigits(32, words))
    modifies out
    ensures ok == (bit <= 64)
    ensures ok ==> Unpacked(32, bit, words, out[..], 0, 32) && SameOutside(old(out[..]), out[..], 0, 32)
    ensures !ok ==> out[..] == old(out[..])
  {
    hide Unpacked, Pow2;
    if bit > 64 {
      return false;
    }
    ok := true;
    if bit == 0 {
      UnpackZero(32, words, out, 0);
    } else if bit == 32 {
      UnpackWhole(32, words, out, 0);
    } else if bit == 64 {
      UnpackWhole64(32, words, out, 0);
    } else if bit == 4 || bit == 8 || bit == 16 {
      UnpackAligned(32, bit, words, out, 0);
    } else {
      UnpackLanes64(32, bit, words, out, 0);
    }
  }

  // ---------- round trips ----------

  /** Unpacking what Pack wrote gives every value's low bits, at every width the element allows. */
  lemma UnpackInvertsPack(W: nat, bit: nat, vs: seq<nat>, words: seq<nat>, out: seq<nat>)
    requires IsElement(W) && |vs| == 32 <= |out|
    requires AllPacked(W, bit, words, vs) && AllUnpacked(W, bit, words, out)
    ensures forall j :: 0 <= j < 32 ==> out[j] == Wrap(bit, vs[j])
  {
    hide Packed, Unpacked, Wrap;
    forall j | 0 <= j < 32
      ensures out[j] == Wrap(bit, vs[j])
    {
      var g := j / W;
      assert GroupPacked(W, bit, words, vs, g) && GroupUnpacked(W, bit, words, out, g);
      LaneRoundTrip(W, bit, vs, words, out, g, j % W);
    }
  }

  lemma LaneRoundTrip(W: nat, bit: nat, vs: seq<nat>, words: seq<nat>, out: seq<nat>, g: nat, i: nat)
    requires i < W && GroupPacked(W, bit, words, vs, g) && GroupUnpacked(W, bit, words, out, g)
    ensures g * W >= 0 && out[g * W + i] == Wrap(bit, vs[g * W + i])
  {
    hide Packed, Field, ValueOf, Wrap;
    assert LaneIs(W, bit, words[g * bit..(g + 1) * bit], out, g * W, i);
    PackedLane(W, bit, words[g * bit..(g + 1) * bit], vs[g * W..(g + 1) * W], i);
    assert vs[g * W..(g + 1) * W][i] == vs[g * W + i];
  }

  /** Packing into any buffer and unpacking from it gives every value's low bits. */
  method PackThenUnpack(W: nat, bit: nat, vs: seq<nat>, buffer: array<nat>, out: array<nat>) returns (ok: bool)
    requires IsElement(W) && |vs| == 32 && out.Length >= 32 && buffer != out
    requires bit <= W ==> Groups(W) * bit <= buffer.Length
    modifies buffer, out
    ensures ok == (bit <= W)
    ensures ok ==> forall j :: 0 <= j < 32 ==> out[j] == Wrap(bit, vs[j])
  {
    hide Wrap, Pow2, AllUnpacked, AllPacked;
    ok := Pack(W, bit, vs, buffer);
    if ok {
      MulNonneg(Groups(W), bit);
      var words := buffer[..Groups(W) * bit];
      PackedPrefix(W, bit, buffer[..], vs);
      ok := Unpack(W, bit, words, out);
      UnpackInvertsPack(W, bit, vs, words, out[..]);
    }
  }

  /** Only the words of the groups matter, and they are words. */
  lemma PackedPrefix(W: nat, bit: nat, buffer: seq<nat>, vs: seq<nat>)
    requires IsElement(W) && 0 <= Groups(W) * bit <= |buffer| && AllPacked(W, bit, buffer, vs)
    ensures AllPacked(W, bit, buffer[..Groups(W) * bit], vs) && AreDigits(W, buffer[..Groups(W) * bit])
  {
    hide ValueOf, Pow2, Masked;
    var n := Groups(W);
    var words := buffer[..n * bit];
    forall g | 0 <= g < n
      ensures GroupPacked(W, bit, words, vs, g)
    {
      assert GroupPacked(W, bit, buffer, vs, g);
      GroupBounds(g, n, bit);
      assert words[g * bit..(g + 1) * bit] == buffer[g * bit..(g + 1) * bit];
    }
    forall i | 0 <= i < |words|
      ensures words[i] < Pow2(W)
    {
      GroupOf(i, bit, n);
      var g := i / bit;
      assert GroupPacked(W, bit, words, vs, g);
      assert words[g * bit..(g + 1) * bit][i - g * bit] == words[i];
    }
  }

  /** The same for 64-bit values. */
  method PackThenUnpack64(bit: nat, vs: seq<nat>, buffer: array<nat>, out: array<nat>) returns (ok: bool)
    requires |vs| == 32 && AreDigits(64, vs) && out.Length >= 32 && buffer != out && (bit <= 64 ==> bit <= buffer.Length)
    modifies buffer, out
    ensures ok == (bit <= 64)
    ensures ok ==> forall j :: 0 <= j < 32 ==> out[j] == Wrap(bit, vs[j])
  {
    hide Wrap, Pow2, Unpacked;
    ok := Pack64(bit, vs, buffer);
    if ok {
      var words := buffer[..bit];
      ok := Unpack64(bit, words, out);
      UnpackInvertsPack64(bit, vs, words, out[..]);
    }
  }

  /** Values that fit come back unchanged. */
  lemma LosslessIfNarrow(W: nat, bit: nat, vs: seq<nat>, words: seq<nat>, out: seq<nat>)
    requires IsElement(W) && |vs| == 32 <= |out|
    requires AllPacked(W, bit, words, vs) && AllUnpacked(W, bit, words, out)
    ensures out[..32] == vs <==> AreDigits(bit, vs)
  {
    UnpackInvertsPack(W, bit, vs, words, out);
    forall j | 0 <= j < 32
      ensures out[j] == vs[j] <==> vs[j] < Pow2(bit)
    {
      if vs[j] < Pow2(bit) {
        WrapOfSmall(bit, vs[j]);
      }
    }
    if out[..32] == vs {
      forall j | 0 <= j < 32
        ensures vs[j] < Pow2(bit)
      {
        assert out[..32][j] == vs[j];
      }
    }
  }

  ghost predicate SameGroup(bit: nat, a: seq<nat>, b: seq<nat>, g: nat) {
    && 0 <= g * bit <= (g + 1) * bit <= |a| && |b| == |a|
    && a[g * bit..(g + 1) * bit] == b[g * bit..(g + 1) * bit]
  }

  /** Packing what Unpack read gives back every word. */
  lemma PackInvertsUnpack(W: nat, bit: nat, words: seq<nat>, out: seq<nat>, words': seq<nat>)
    requires IsElement(W) && |words| == |words'| == Groups(W) * bit && AreDigits(W, words)
    requires |out| >= 32 && AllUnpacked(W, bit, words, out) && AllPacked(W, bit, words', out[..32])
    ensures words' == words
  {
    hide Packed, Unpacked, Pow2;
    forall g | 0 <= g < Groups(W)
      ensures SameGroup(bit, words, words', g)
    {
      assert GroupUnpacked(W, bit, words, out, g) && GroupPacked(W, bit, words', out[..32], g);
      GroupRepacked(W, bit, words, out, words', g);
    }
    forall i | 0 <= i < |words|
      ensures words'[i] == words[i]
    {
      var g := i / bit;
      GroupOf(i, bit, Groups(W));
      assert SameGroup(bit, words, words', g);
      assert words'[g * bit..(g + 1) * bit][i - g * bit] == words[g * bit..(g + 1) * bit][i - g * bit];
    }
  }

  lemma GroupOf(i: nat, bit: nat, n: nat)
    requires n > 0 && i < n * bit
    ensures bit > 0 && 0 <= i / bit < n && (i / bit) * bit <= i < (i / bit + 1) * bit
  {
    MulCancelLt(0, bit, n);
    DivMod(i, bit);
    DivNonneg(i, bit);
    MulCancelLt(i / bit, n, bit);
  }

  lemma GroupRepacked(W: nat, bit: nat, words: seq<nat>, out: seq<nat>, words': seq<nat>, g: nat)
    requires |out| >= 32 && AreDigits(W, words) && |words| == |words'|
    requires GroupUnpacked(W, bit, words, out, g) && GroupPacked(W, bit, words', out[..32], g)
    ensures words'[g * bit..(g + 1) * bit] == words[g * bit..(g + 1) * bit]
  {
    hide Packed, Field, ValueOf, Pow2;
    var ws := words[g * bit..(g + 1) * bit];
    var vs := out[..32][g * W..(g + 1) * W];
    assert (g + 1) * bit == g * bit + bit && (g + 1) * W == g * W + W;
    forall j: nat | j < W
      ensures LaneIs(W, bit, ws, vs, 0, j)
    {
      assert LaneIs(W, bit, ws, out, g * W, j);
      assert vs[j] == out[g * W + j];
    }
    RepackedWords(W, bit, ws, vs, words'[g * bit..(g + 1) * bit]);
  }

  /** The 64-bit overloads, for every width up to 64. */
  lemma UnpackInvertsPack64(bit: nat, vs: seq<nat>, words: seq<nat>, out: seq<nat>)
    requires |vs| == 32 <= |out| && Packed(32, bit, words, vs) && Unpacked(32, bit, words, out, 0, 32)
    ensures forall j :: 0 <= j < 32 ==> out[j] == Wrap(bit, vs[j])
  {
    hide Packed, Field, ValueOf, Wrap;
    forall j | 0 <= j < 32
      ensures out[j] == Wrap(bit, vs[j])
    {
      PackedLane(32, bit, words, vs, j);
      assert LaneIs(32, bit, words, out, 0, j);
    }
  }

  lemma PackInvertsUnpack64(bit: nat, words: seq<nat>, out: seq<nat>, words': seq<nat>)
    requires |words| == |words'| == bit && AreDigits(32, words) && |out| >= 32
    requires Unpacked(32, bit, words, out, 0, 32) && Packed(32, bit, words', out[..32])
    ensures words' == words
  {
    hide Packed, Field, ValueOf, Pow2;
    forall j: nat | j < 32
      ensures LaneIs(32, bit, words, out[..32], 0, j)
    {
      assert LaneIs(32, bit, words, out, 0, j);
    }
    RepackedWords(32, bit, words, out[..32], words');
  }
}

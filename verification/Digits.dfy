/** Little-endian digit sequences in base Pow2(W): values, bit fields, and the chunks
    in which a bit packer appends values to a buffer of words. */
module Digits {
  import opened Words
  import opened WideArithmetic

  ghost predicate AreDigits(W: nat, ws: seq<nat>) {
    forall i :: 0 <= i < |ws| ==> ws[i] < Pow2(W)
  }

  /** The number whose base-Pow2(W) digits, lowest first, are ws. */
  ghost function ValueOf(W: nat, ws: seq<nat>): (v: nat) {
    if ws == [] then 0
    else
      MulNonneg(Pow2(W), ValueOf(W, ws[1..]));
      ws[0] + Pow2(W) * ValueOf(W, ws[1..])
  }

  lemma {:induction false} ValueAppend(W: nat, a: seq<nat>, b: seq<nat>)
    ensures |a| * W >= 0
    ensures ValueOf(W, a + b) == ValueOf(W, a) + Pow2(|a| * W) * ValueOf(W, b)
  {
    if a == [] {
      assert a + b == b;
    } else {
      var t := a[1..];
      assert (a + b)[1..] == t + b;
      ValueAppend(W, t, b);
      SplitExponent(|t|, W);
      hide Pow2, ValueOf;
      Scale(Pow2(W), Pow2(|t| * W), ValueOf(W, t), ValueOf(W, b));
      ValueStep(W, a);
      ValueStep(W, a + b);
    }
  }

  lemma ValueStep(W: nat, a: seq<nat>)
    requires a != []
    ensures ValueOf(W, a) == a[0] + Pow2(W) * ValueOf(W, a[1..])
  {
  }

  lemma SplitExponent(n: nat, W: nat)
    ensures n * W >= 0 && (n + 1) * W >= 0 && Pow2((n + 1) * W) == Pow2(W) * Pow2(n * W)
  {
    MulNonneg(n, W);
    assert (n + 1) * W == W + n * W;
    Pow2Add(W, n * W);
  }

  lemma Scale(p: int, q: int, x: int, y: int)
    ensures p * (x + q * y) == p * x + (p * q) * y
  {
  }

  lemma ValueOne(W: nat, w: nat)
    ensures ValueOf(W, [w]) == w
  {
    assert [w][1..] == [];
  }

  lemma {:induction false} ValueBound(W: nat, a: seq<nat>)
    requires AreDigits(W, a)
    ensures |a| * W >= 0 && ValueOf(W, a) < Pow2(|a| * W)
  {
    if a == [] {
      assert |a| * W == 0;
    } else {
      hide Pow2, ValueOf;
      var t := a[1..];
      ValueBound(W, t);
      SplitExponent(|t|, W);
      ValueStep(W, a);
      BelowProduct(a[0], ValueOf(W, t), Pow2(W), Pow2(|t| * W));
    }
  }

  lemma BelowProduct(w: int, v: int, p: int, q: int)
    requires w < p && v < q && 0 < p
    ensures w + p * v < p * q
  {
    MulMono(v + 1, q, p);
  }

  /** A buffer of words that holds X in its first k*W + s bits and nothing above. */
  ghost predicate Holds(W: nat, ws: seq<nat>, X: nat, k: nat, s: nat) {
    && s < W && k * W >= 0
    && |ws| == k + (if s > 0 then 1 else 0)
    && AreDigits(W, ws) && ValueOf(W, ws) == X && X < Pow2(k * W + s)
  }

  /** The buffer after c more bits t: a fresh word at a word boundary, otherwise added above bit s. */
  ghost function Extended(ws: seq<nat>, k: nat, s: nat, t: nat): (r: seq<nat>)
    requires |ws| == k + (if s > 0 then 1 else 0)
  {
    MulNonneg(t, Pow2(s));
    if s == 0 then ws + [t] else ws[..k] + [ws[k] + t * Pow2(s)]
  }

  lemma PartialWordIsSmall(W: nat, ws: seq<nat>, X: nat, k: nat, s: nat)
    requires Holds(W, ws, X, k, s) && s > 0
    ensures ws[k] < Pow2(s) && X == ValueOf(W, ws[..k]) + Pow2(k * W) * ws[k]
  {
    assert ws == ws[..k] + [ws[k]];
    ValueAppend(W, ws[..k], [ws[k]]);
    ValueOne(W, ws[k]);
    Pow2Add(k * W, s);
    hide Pow2, ValueOf;
    if ws[k] >= Pow2(s) {
      MulMono(Pow2(s), ws[k], Pow2(k * W));
    }
  }

  /** One chunk that does not cross a word boundary. */
  lemma ChunkStep(W: nat, ws: seq<nat>, X: nat, k: nat, s: nat, t: nat, c: nat)
    requires Holds(W, ws, X, k, s) && t < Pow2(c) && 0 < c && s + c <= W
    ensures var (k', s') := if s + c == W then (k + 1, 0) else (k, s + c);
            && t * Pow2(k * W + s) >= 0
            && Holds(W, Extended(ws, k, s, t), X + t * Pow2(k * W + s), k', s')
  {
    MulNonneg(t, Pow2(k * W + s));
    var ws' := Extended(ws, k, s, t);
    assert k * W + s + c == if s + c == W then (k + 1) * W else k * W + (s + c) by {
      assert (k + 1) * W == k * W + W;
    }
    assert X + t * Pow2(k * W + s) < Pow2(k * W + s + c) by {
      Pow2Add(c, k * W + s);
      hide Pow2;
      TopChunk(Pow2(k * W + s), Pow2(c), X, t);
    }
    assert ValueOf(W, ws') == X + t * Pow2(k * W + s) && AreDigits(W, ws') by {
      ChunkValue(W, ws, X, k, s, t, c);
    }
  }

  lemma TopChunk(P: int, C: int, X: int, t: int)
    requires X < P && 0 < P && t < C
    ensures X + t * P < C * P
  {
    MulMono(t + 1, C, P);
  }

  lemma ChunkValue(W: nat, ws: seq<nat>, X: nat, k: nat, s: nat, t: nat, c: nat)
    requires Holds(W, ws, X, k, s) && t < Pow2(c) && 0 < c && s + c <= W
    ensures var ws' := Extended(ws, k, s, t);
            t * Pow2(k * W + s) >= 0 && ValueOf(W, ws') == X + t * Pow2(k * W + s) && AreDigits(W, ws')
  {
    MulNonneg(t, Pow2(k * W + s));
    if s == 0 {
      FreshChunk(W, ws, k, t, c);
    } else {
      PartialChunk(W, ws, X, k, s, t, c);
    }
  }

  lemma FreshChunk(W: nat, ws: seq<nat>, k: nat, t: nat, c: nat)
    requires AreDigits(W, ws) && |ws| == k && t < Pow2(c) && c <= W
    ensures k * W >= 0 && ValueOf(W, ws + [t]) == ValueOf(W, ws) + t * Pow2(k * W) && AreDigits(W, ws + [t])
  {
    hide Pow2, ValueOf;
    Pow2Mono(c, W);
    ValueAppend(W, ws, [t]);
    ValueOne(W, t);
    MulComm(Pow2(k * W), t);
  }

  lemma PartialChunk(W: nat, ws: seq<nat>, X: nat, k: nat, s: nat, t: nat, c: nat)
    requires Holds(W, ws, X, k, s) && s > 0 && t < Pow2(c) && s + c <= W
    ensures var ws' := Extended(ws, k, s, t);
            t * Pow2(k * W + s) >= 0 && ValueOf(W, ws') == X + t * Pow2(k * W + s) && AreDigits(W, ws')
  {
    hide Pow2, ValueOf;
    MulNonneg(t, Pow2(k * W + s));
    PartialWordIsSmall(W, ws, X, k, s);
    MulNonneg(t, Pow2(s));
    var w := ws[k] + t * Pow2(s);
    assert w < Pow2(W) by {
      Pow2Add(c, s);
      Pow2Mono(c + s, W);
      TopChunk(Pow2(s), Pow2(c), ws[k], t);
    }
    ValueAppend(W, ws[..k], [w]);
    ValueOne(W, w);
    Pow2Add(k * W, s);
    Scale(Pow2(k * W), Pow2(s), ws[k], t);
    MulAssoc(Pow2(k * W), Pow2(s), t);
  }

  // ---------- reading fields ----------

  /** The n bits of X from bit p on. */
  ghost function Field(X: nat, p: nat, n: nat): (v: nat)
    ensures v < Pow2(n)
  {
    DivNonneg(X, Pow2(p));
    (X / Pow2(p)) % Pow2(n)
  }

  /** Digit i of a value is its field of W bits at i*W. */
  lemma DigitIsField(W: nat, ws: seq<nat>, i: nat)
    requires AreDigits(W, ws) && i < |ws|
    ensures i * W >= 0 && Field(ValueOf(W, ws), i * W, W) == ws[i]
  {
    MulNonneg(i, W);
    DropLow(W, ws, i);
    ValueStep(W, ws[i..]);
    hide Pow2, ValueOf;
    var rest := ValueOf(W, ws[i..][1..]);
    DivUnique(ValueOf(W, ws[i..]), Pow2(W), rest, ws[i]);
  }

  /** Dividing by Pow2(i*W) drops the i lowest digits. */
  lemma DropLow(W: nat, ws: seq<nat>, i: nat)
    requires AreDigits(W, ws) && i <= |ws|
    ensures i * W >= 0 && ValueOf(W, ws) / Pow2(i * W) == ValueOf(W, ws[i..])
  {
    assert ws == ws[..i] + ws[i..];
    ValueAppend(W, ws[..i], ws[i..]);
    ValueBound(W, ws[..i]);
    hide Pow2, ValueOf;
    DivUnique(ValueOf(W, ws), Pow2(i * W), ValueOf(W, ws[i..]), ValueOf(W, ws[..i]));
  }

  /** A field that starts s bits into word k: the high part of that word, then of the rest. */
  lemma FieldSplit(W: nat, ws: seq<nat>, k: nat, s: nat, n: nat)
    requires AreDigits(W, ws) && k < |ws| && s <= W
    ensures k * W >= 0
    ensures n <= W - s ==> Field(ValueOf(W, ws), k * W + s, n) == Shr(ws[k], s) % Pow2(n)
    ensures n >= W - s ==>
              Field(ValueOf(W, ws), k * W + s, n)
              == Shr(ws[k], s) + Pow2(W - s) * (ValueOf(W, ws[k + 1..]) % Pow2(n - (W - s)))
  {
    hide Pow2, ValueOf;
    MulNonneg(k, W);
    DropLow(W, ws, k);
    ValueStep(W, ws[k..]);
    assert ws[k..][1..] == ws[k + 1..];
    Pow2Add(k * W, s);
    Pow2Add(s, W - s);
    var X, rest := ValueOf(W, ws), ValueOf(W, ws[k + 1..]);
    if n <= W - s {
      Pow2Add(n, W - s - n);
      FieldInside(X, Pow2(k * W), Pow2(s), Pow2(k * W + s), ws[k], rest, Pow2(W), Pow2(W - s), Pow2(n), Pow2(W - s - n));
    }
    if n >= W - s {
      Pow2Add(W - s, n - (W - s));
      FieldAcross(X, Pow2(k * W), Pow2(s), Pow2(k * W + s), ws[k], rest, Pow2(W), Pow2(W - s), Pow2(n), Pow2(n - (W - s)));
    }
  }

  /** Dropping P*p from X, whose upper part above P is w with rest above it. */
  lemma DropTwice(X: int, P: int, p: int, Q: int, w: int, rest: int, B: int, c: int)
    requires P > 0 && p > 0 && c > 0 && Q == P * p && B == p * c && X / P == w + B * rest
    ensures Q > 0 && X / Q == w / p + c * rest
  {
    DivDiv(X, P, p);
    HighOfPair(w, rest, p, c);
  }

  lemma FieldInside(X: int, P: int, p: int, Q: int, w: int, rest: int, B: int, c: int, n: int, m: int)
    requires P > 0 && p > 0 && c > 0 && n > 0 && Q == P * p && B == p * c && c == n * m
    requires X / P == w + B * rest
    ensures Q > 0 && (X / Q) % n == (w / p) % n
  {
    DropTwice(X, P, p, Q, w, rest, B, c);
    LowOfPair(w / p, rest, n, m);
  }

  lemma FieldAcross(X: int, P: int, p: int, Q: int, w: int, rest: int, B: int, c: int, n: int, m: int)
    requires P > 0 && p > 0 && c > 0 && m > 0 && Q == P * p && B == p * c && n == c * m
    requires X / P == w + B * rest && 0 <= w < B
    ensures Q > 0 && n > 0 && (X / Q) % n == w / p + c * (rest % m)
  {
    DropTwice(X, P, p, Q, w, rest, B, c);
    DivBelow(w, p, c);
    ModOfPair(w / p, rest, c, m);
  }

  lemma HighOfPair(w: int, rest: int, p: int, c: int)
    requires p > 0
    ensures (w + (p * c) * rest) / p == w / p + c * rest
  {
    assert (p * c) * rest == (c * rest) * p;
    ModAddMultiple(w, c * rest, p);
  }

  lemma LowOfPair(h: int, rest: int, a: int, b: int)
    requires a > 0
    ensures (h + (a * b) * rest) % a == h % a
  {
    assert (a * b) * rest == (b * rest) * a;
    ModAddMultiple(h, b * rest, a);
  }

  lemma ModOfPair(h: int, rest: int, c: int, m: int)
    requires c > 0 && m > 0 && 0 <= h < c
    ensures c * m > 0 && (h + c * rest) % (c * m) == h + c * (rest % m)
  {
    MulStrict(0, c, m);
    DivMod(rest, m);
    PairSplit(h, c, m, rest / m, rest % m);
    DivUnique(h + c * rest, c * m, rest / m, h + c * (rest % m));
  }

  lemma PairSplit(h: int, c: int, m: int, q: int, r: int)
    requires c > 0 && 0 <= h < c && 0 <= r < m
    ensures 0 <= h + c * r < c * m && h + c * (q * m + r) == q * (c * m) + (h + c * r)
  {
    MulMono(r + 1, m, c);
    MulNonneg(c, r);
    assert c * (q * m) == q * (c * m);
  }

  /** The n low bits of a value lie in its first digits. */
  lemma LowBits(W: nat, ws: seq<nat>, n: nat)
    requires AreDigits(W, ws) && ws != []
    ensures n <= W ==> ValueOf(W, ws) % Pow2(n) == ws[0] % Pow2(n)
    ensures n >= W ==> ValueOf(W, ws) % Pow2(n) == ws[0] + Pow2(W) * (ValueOf(W, ws[1..]) % Pow2(n - W))
  {
    ValueStep(W, ws);
    if n <= W {
      Pow2Add(n, W - n);
    } else {
      Pow2Add(W, n - W);
    }
    hide Pow2, ValueOf;
    if n <= W {
      LowOfPair(ws[0], ValueOf(W, ws[1..]), Pow2(n), Pow2(W - n));
    }
    if n >= W {
      ModOfPair(ws[0], ValueOf(W, ws[1..]), Pow2(W), Pow2(n - W));
    }
  }
}

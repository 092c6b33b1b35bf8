/** What cpptoml's string reader accepts and returns, said of the characters of the text: the
    spellings of a code point, the escapes, and the texts of whole strings. */
module TomlGrammar {
  import opened TomlString
  import opened Words

  // ---------- hexadecimal spellings ----------

  /** The characters 0-9a-f and 0-9A-F. */
  const LOWER_DIGITS: seq<nat> := [48, 49, 50, 51, 52, 53, 54, 55, 56, 57, 97, 98, 99, 100, 101, 102]
  const UPPER_DIGITS: seq<nat> := [48, 49, 50, 51, 52, 53, 54, 55, 56, 57, 65, 66, 67, 68, 69, 70]

  predicate SpellsDigit(c: nat, d: nat) {
    d < 16 && (c == LOWER_DIGITS[d] || c == UPPER_DIGITS[d])
  }

  /** The digit of weight 16^k. */
  function DigitOf(n: nat, k: nat): (d: nat)
    ensures d < 16
  {
    n / Pow2(4 * k) % 16
  }

  predicate SpellsAt(t: seq<nat>, n: nat, i: nat)
    requires i < |t|
  {
    SpellsDigit(t[i], DigitOf(n, |t| - 1 - i))
  }

  /** The text is n in base 16, highest digit first, each digit in either case. */
  ghost predicate Spells(t: seq<nat>, n: nat) {
    n < Pow2(4 * |t|) && forall i: nat :: i < |t| ==> SpellsAt(t, n, i)
  }

  lemma DigitIff(c: nat, d: nat)
    ensures SpellsDigit(c, d) <==> IsHex(c) && HexValue(c) == d
  {
  }

  /** Dropping the last digit divides by 16. */
  lemma SpellsLess(t: seq<nat>, n: nat)
    requires t != []
    ensures Spells(t, n) <==> Spells(t[..|t| - 1], n / 16) && SpellsDigit(t[|t| - 1], n % 16)
  {
    var k := |t| - 1;
    var u := t[..k];
    LastDigit(t, n);
    Pow2Step(k);
    BelowPower(n, Pow2(4 * k));
    hide SpellsAt, SpellsDigit, Pow2;
    forall i: nat | i < k
      ensures SpellsAt(t, n, i) <==> SpellsAt(u, n / 16, i)
    {
      DigitKept(t, n, i);
    }
  }

  lemma LastDigit(t: seq<nat>, n: nat)
    requires t != []
    ensures SpellsAt(t, n, |t| - 1) <==> SpellsDigit(t[|t| - 1], n % 16)
  {
    hide SpellsDigit;
  }

  lemma DigitKept(t: seq<nat>, n: nat, i: nat)
    requires i < |t| - 1
    ensures SpellsAt(t, n, i) <==> SpellsAt(t[..|t| - 1], n / 16, i)
  {
    hide SpellsDigit, DigitOf;
    DigitBelow(n, |t| - 1 - i);
  }

  lemma Pow2Step(k: nat)
    ensures Pow2(4 * (k + 1)) == 16 * Pow2(4 * k)
  {
    Pow2Add(4, 4 * k);
  }

  lemma BelowPower(n: nat, p: nat)
    ensures n < 16 * p <==> n / 16 < p
  {
  }

  lemma DigitBelow(n: nat, k: nat)
    requires k > 0
    ensures DigitOf(n, k) == DigitOf(n / 16, k - 1)
  {
    Pow2Step(k - 1);
    DivDiv(n, 16, Pow2(4 * (k - 1)));
  }

  /** The reader's number is the one the characters spell, and no other text has one. */
  lemma {:induction false} HexNumberIff(t: seq<nat>, k: nat, n: nat)
    requires k <= |t|
    ensures Spells(t[..k], n) <==> AllHex(t, k) && HexNumber(t, k) == n
    decreases k
  {
    if k > 0 {
      HexNumberIff(t, k - 1, n / 16);
      assert t[..k][..k - 1] == t[..k - 1];
      SpellsLess(t[..k], n);
      DigitIff(t[k - 1], n % 16);
    }
  }

  // ---------- Unicode escapes ----------

  /** Section 3.9 of the Unicode standard: every code point but the surrogates. */
  predicate IsScalarValue(cp: nat) {
    cp <= 0xd7ff || 0xe000 <= cp <= 0x10ffff
  }

  /** The code points whose three-byte form comes out without bit 11. */
  predicate LosesBit(cp: nat) {
    0x800 <= cp <= 0xffff && cp / 2048 % 2 == 1
  }

  /** What the escape of a scalar value stands for. */
  function Decoded(cp: nat): (t: seq<nat>)
    requires IsScalarValue(cp)
    ensures t == Utf8(cp) <==> !LosesBit(cp)
  {
    var t := Utf8(cp);
    if LosesBit(cp) then [t[0], t[1] - 32, t[2]] else t
  }

  lemma DecodedIs(cp: nat)
    ensures IsScalarValue(cp) <==> IsScalar(cp)
    ensures IsScalarValue(cp) ==> EncodeUnicode(cp) == Decoded(cp)
  {
    if IsScalarValue(cp) {
      UnicodeIsUtf8Iff(cp);
      if LosesBit(cp) {
        ThreeBytes(cp);
        MiddleBits(cp);
      }
    }
  }

  function DigitCount(large: bool): (n: nat) {
    if large then 8 else 4
  }

  function UnicodeText(large: bool, digits: seq<nat>): (t: seq<nat>) {
    [BACKSLASH, if large then UPPER_U else LOWER_U] + digits
  }

  /** Every spelling of every number, before any rest: read as its code point, refused when that is
      no scalar value, and UTF-8 exactly when no bit is lost. */
  lemma UnicodeEscape(large: bool, digits: seq<nat>, rest: seq<nat>, cp: nat)
    requires |digits| == DigitCount(large) && Spells(digits, cp)
    ensures var r := ReadEscape(UnicodeText(large, digits) + rest);
            && (r == Failed <==> !IsScalarValue(cp))
            && (IsScalarValue(cp) ==> r == Done(Decoded(cp), rest))
            && (IsScalarValue(cp) ==> (r == Done(Utf8(cp), rest) <==> !LosesBit(cp)))
  {
    var n, t := DigitCount(large), UnicodeText(large, digits) + rest;
    var u := t[1..];
    assert u[1..] == digits + rest && u[1 + n..] == rest;
    assert (digits + rest)[..n] == digits;
    HexNumberIff(digits + rest, n, cp);
    DecodedIs(cp);
    hide Spells, AllHex, HexNumber, EncodeUnicode, IsScalar, IsScalarValue, Decoded, LosesBit;
  }

  /** Nothing but a spelled scalar value is accepted after the u or U. */
  lemma UnicodeEscapeIff(large: bool, t: seq<nat>)
    ensures var n := DigitCount(large);
            ReadEscape(UnicodeText(large, t)).Done?
            <==> |t| >= n && exists cp :: Spells(t[..n], cp) && IsScalarValue(cp)
  {
    var n, text := DigitCount(large), UnicodeText(large, t);
    assert text[1..][1..] == t;
    if |t| >= n {
      assert t == t[..n] + t[n..];
      assert UnicodeText(large, t[..n]) + t[n..] == text;
      if AllHex(t, n) {
        var cp := HexNumber(t, n);
        HexNumberIff(t, n, cp);
        UnicodeEscape(large, t[..n], t[n..], cp);
      }
      forall cp | Spells(t[..n], cp) && IsScalarValue(cp)
        ensures ReadEscape(text).Done?
      {
        UnicodeEscape(large, t[..n], t[n..], cp);
      }
      if ReadEscape(text).Done? {
        assert AllHex(t, n);
      }
    }
  }

  // ---------- whole strings ----------

  /** The letters of the short escapes, and the bytes they stand for. */
  const SHORT_LETTERS: seq<nat> := [98, 116, 110, 102, 114, 34, 92]
  const SHORT_BYTES: seq<nat> := [8, 9, 10, 12, 13, 34, 92]

  datatype Token = Raw(c: nat) | Short(i: nat) | Unicode(large: bool, digits: seq<nat>, cp: nat)

  ghost predicate IsToken(k: Token) {
    match k
    case Raw(c) => c != QUOTE && c != BACKSLASH
    case Short(i) => i < |SHORT_LETTERS|
    case Unicode(large, digits, cp) => |digits| == DigitCount(large) && Spells(digits, cp) && IsScalarValue(cp)
  }

  ghost function Text(k: Token): (t: seq<nat>)
    requires IsToken(k)
  {
    match k
    case Raw(c) => [c]
    case Short(i) => [BACKSLASH, SHORT_LETTERS[i]]
    case Unicode(large, digits, _) => UnicodeText(large, digits)
  }

  ghost function Meaning(k: Token): (t: seq<nat>)
    requires IsToken(k)
  {
    match k
    case Raw(c) => [c]
    case Short(i) => [SHORT_BYTES[i]]
    case Unicode(_, _, cp) => Decoded(cp)
  }

  ghost predicate AreTokens(ks: seq<Token>) {
    forall i :: 0 <= i < |ks| ==> IsToken(ks[i])
  }

  ghost function Texts(ks: seq<Token>): (t: seq<nat>)
    requires AreTokens(ks)
  {
    if ks == [] then [] else Text(ks[0]) + Texts(ks[1..])
  }

  ghost function Meanings(ks: seq<Token>): (t: seq<nat>)
    requires AreTokens(ks)
  {
    if ks == [] then [] else Meaning(ks[0]) + Meanings(ks[1..])
  }

  /** One token of the text gives its meaning. */
  lemma TokenRead(k: Token, rest: seq<nat>)
    requires IsToken(k)
    ensures ReadText(Text(k) + rest, QUOTE) == Prepend(Meaning(k), ReadText(rest, QUOTE))
  {
    hide ReadText, Spells;
    var t := Text(k) + rest;
    ReadOne(t, QUOTE);
    match k
    case Raw(c) => assert t[0] == c && t[1..] == rest;
    case Short(i) => assert t[0] == BACKSLASH && t[1] == SHORT_LETTERS[i] && t[2..] == rest;
    case Unicode(large, digits, cp) => UnicodeEscape(large, digits, rest, cp);
  }

  lemma {:induction false} TokensRead(ks: seq<Token>, after: seq<nat>)
    requires AreTokens(ks)
    ensures ReadText(Texts(ks) + [QUOTE] + after, QUOTE) == Done(Meanings(ks), SkipBlanks(after))
  {
    hide ReadText, SkipBlanks, IsToken, Text, Meaning;
    var t := Texts(ks) + [QUOTE] + after;
    if ks == [] {
      assert t[0] == QUOTE && t[1..] == after;
      ReadOne(t, QUOTE);
    } else {
      var rest := Texts(ks[1..]) + [QUOTE] + after;
      assert t == Text(ks[0]) + rest;
      TokensRead(ks[1..], after);
      TokenRead(ks[0], rest);
    }
  }

  /** An accepted text starts with a token or with the closing quote. */
  lemma FirstToken(t: seq<nat>) returns (k: Token)
    requires ReadText(t, QUOTE).Done? && t[0] != QUOTE
    ensures IsToken(k) && Text(k) <= t
  {
    hide ReadText;
    assert t != [] by { NothingToRead(QUOTE); }
    ReadOne(t, QUOTE);
    if t[0] != BACKSLASH {
      k := Raw(t[0]);
    } else {
      k := EscapeToken(t);
    }
  }

  lemma EscapeToken(t: seq<nat>) returns (k: Token)
    requires t != [] && t[0] == BACKSLASH && ReadEscape(t).Done?
    ensures IsToken(k) && Text(k) <= t
  {
    if t[1] == LOWER_U || t[1] == UPPER_U {
      var large, u := t[1] == UPPER_U, t[2..];
      var n := DigitCount(large);
      assert t == UnicodeText(large, u);
      UnicodeEscapeIff(large, u);
      var cp :| Spells(u[..n], cp) && IsScalarValue(cp);
      k := Unicode(large, u[..n], cp);
      assert t[..n + 2] == UnicodeText(large, u[..n]);
    } else {
      assert t[1] in SHORT_LETTERS;
      var i :| 0 <= i < |SHORT_LETTERS| && SHORT_LETTERS[i] == t[1];
      k := Short(i);
      assert t[..2] == Text(k);
    }
  }

  lemma {:induction false} TokensOf(t: seq<nat>) returns (ks: seq<Token>, after: seq<nat>)
    requires ReadText(t, QUOTE).Done?
    ensures AreTokens(ks) && t == Texts(ks) + [QUOTE] + after
    decreases |t|
  {
    hide ReadText, IsToken, Text, Meaning;
    assert t != [] by { NothingToRead(QUOTE); }
    if t[0] == QUOTE {
      ks, after := [], t[1..];
      assert t == [QUOTE] + after;
    } else {
      var k := FirstToken(t);
      var rest := t[|Text(k)|..];
      assert t == Text(k) + rest;
      TokenRead(k, rest);
      assert |Text(k)| > 0 by { TextNotEmpty(k); }
      var more;
      more, after := TokensOf(rest);
      ks := [k] + more;
      assert ks[1..] == more;
    }
  }

  lemma TextNotEmpty(k: Token)
    requires IsToken(k)
    ensures |Text(k)| > 0
  {
  }

  ghost predicate Splits(t: seq<nat>, ks: seq<Token>, after: seq<nat>) {
    AreTokens(ks) && t == Texts(ks) + [QUOTE] + after
  }

  /** A basic string is accepted exactly when it is tokens and a closing quote, and then it is the
      tokens' meanings and what follows the quote and its blanks. */
  lemma BasicStringIff(t: seq<nat>, v: seq<nat>, r: seq<nat>)
    ensures ReadText(t, QUOTE) == Done(v, r)
            <==> exists ks, after :: Splits(t, ks, after) && v == Meanings(ks) && r == SkipBlanks(after)
  {
    hide ReadText, SkipBlanks;
    forall ks, after | Splits(t, ks, after)
      ensures ReadText(t, QUOTE) == Done(Meanings(ks), SkipBlanks(after))
    {
      TokensRead(ks, after);
    }
    if ReadText(t, QUOTE) == Done(v, r) {
      var ks, after := TokensOf(t);
      assert Splits(t, ks, after);
    }
  }

  /** Any other delimiter: the text up to its first occurrence, as it stands. */
  lemma {:induction false} LiteralStringIff(t: seq<nat>, delim: nat, v: seq<nat>, r: seq<nat>)
    requires delim != QUOTE
    ensures ReadText(t, delim) == Done(v, r)
            <==> |v| < |t| && v == t[..|v|] && delim !in v && t[|v|] == delim && r == SkipBlanks(t[|v| + 1..])
    decreases |t|
  {
    hide ReadText, SkipBlanks;
    if t == [] {
      NothingToRead(delim);
    } else {
      ReadOne(t, delim);
      if t[0] == delim {
        assert v != [] && |v| < |t| && v == t[..|v|] ==> v[0] == delim;
      } else if v != [] {
        LiteralStringIff(t[1..], delim, v[1..], r);
      }
    }
  }

  /** The writer spells a bare byte in lower case without padding. */
  lemma BareByteWritten(c: nat)
    requires IsBare(c)
    ensures var t := EscapeByte(c);
            && |t| == (if c < 16 then 3 else 4) && t[..2] == [BACKSLASH, LOWER_U] && Spells(t[2..], c)
            && forall i :: 2 <= i < |t| ==> t[i] in LOWER_DIGITS
  {
    var t := EscapeByte(c);
    var u := t[2..];
    hide EscapeByte, IsBare, Spells;
    assert t == [BACKSLASH, LOWER_U] + Hex(c) by { WrittenAs(c); }
    assert u == Hex(c) && u[..|u|] == u;
    HexIs(c);
    HexNumberIff(u, |u|, c);
  }

  lemma WrittenAs(c: nat)
    requires IsBare(c)
    ensures EscapeByte(c) == [BACKSLASH, LOWER_U] + Hex(c)
  {
  }

  lemma HexIs(c: nat)
    requires c < 256
    ensures AllHex(Hex(c), |Hex(c)|) && HexNumber(Hex(c), |Hex(c)|) == c
    ensures forall i :: 0 <= i < |Hex(c)| ==> Hex(c)[i] in LOWER_DIGITS
  {
    var t := Hex(c);
    LowerDigit(c % 16);
    LowerDigit(c / 16);
    hide HexDigit, HexValue, IsHex;
    assert HexNumber(t, 1) == HexValue(t[0]) by { assert HexNumber(t, 0) == 0; }
  }

  lemma LowerDigit(d: nat)
    requires d < 16
    ensures IsHex(HexDigit(d)) && HexValue(HexDigit(d)) == d && HexDigit(d) in LOWER_DIGITS
  {
    HexBack(d);
    assert LOWER_DIGITS[d] == HexDigit(d);
  }
}

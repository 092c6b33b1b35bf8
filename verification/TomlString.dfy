/** cpptoml's basic strings: the writer's escape_string and the parser's string_literal. Bytes are
    numbers below 256; functions describe reading on the text that is left, methods follow the loops. */
module TomlString {
  import opened Words

  const BACKSPACE: nat := 8
  const TAB: nat := 9
  const LINE_FEED: nat := 10
  const FORM_FEED: nat := 12
  const CARRIAGE_RETURN: nat := 13
  const SPACE: nat := 32
  const QUOTE: nat := 34
  const DIGIT_0: nat := 48
  const UPPER_A: nat := 65
  const UPPER_U: nat := 85
  const BACKSLASH: nat := 92
  const LOWER_A: nat := 97
  const LOWER_B: nat := 98
  const LOWER_F: nat := 102
  const LOWER_N: nat := 110
  const LOWER_R: nat := 114
  const LOWER_T: nat := 116
  const LOWER_U: nat := 117

  /** What a reader leaves: the value and the rest of the text, or an exception. */
  datatype Reading = Done(value: seq<nat>, rest: seq<nat>) | Failed

  // ---------- the writer ----------

  function HexDigit(n: nat): (c: nat)
    requires n < 16
  {
    if n < 10 then DIGIT_0 + n else LOWER_A + n - 10
  }

  /** Lower-case hexadecimal without padding, as the stream prints it. */
  function Hex(n: nat): (t: seq<nat>)
    requires n < 256
  {
    if n < 16 then [HexDigit(n)] else [HexDigit(n / 16), HexDigit(n % 16)]
  }

  function EscapeByte(c: nat): (t: seq<nat>) {
    if c == BACKSPACE then [BACKSLASH, LOWER_B]
    else if c == TAB then [BACKSLASH, LOWER_T]
    else if c == LINE_FEED then [BACKSLASH, LOWER_N]
    else if c == FORM_FEED then [BACKSLASH, LOWER_F]
    else if c == CARRIAGE_RETURN then [BACKSLASH, LOWER_R]
    else if c == QUOTE then [BACKSLASH, QUOTE]
    else if c == BACKSLASH then [BACKSLASH, BACKSLASH]
    else if c <= 0x1f then [BACKSLASH, LOWER_U] + Hex(c)
    else [c]
  }

  function Escaped(s: seq<nat>): (t: seq<nat>) {
    if s == [] then [] else EscapeByte(s[0]) + Escaped(s[1..])
  }

  lemma {:induction false} EscapedAppend(s: seq<nat>, c: nat)
    ensures Escaped(s + [c]) == Escaped(s) + EscapeByte(c)
  {
    hide EscapeByte;
    if s == [] {
      assert [c][1..] == [] && s + [c] == [c];
    } else {
      EscapedAppend(s[1..], c);
      assert (s + [c])[1..] == s[1..] + [c] && (s + [c])[0] == s[0];
    }
  }

  method EscapeString(s: seq<nat>) returns (res: seq<nat>)
    ensures res == Escaped(s)
  {
    res := [];
    var i := 0;
    while i < |s|
      invariant 0 <= i <= |s| && res == Escaped(s[..i])
    {
      assert s[..i + 1] == s[..i] + [s[i]];
      EscapedAppend(s[..i], s[i]);
      res := res + EscapeByte(s[i]);
      i := i + 1;
    }
    assert s[..|s|] == s;
  }

  // ---------- the reader ----------

  predicate IsNumber(c: nat) {
    DIGIT_0 <= c <= DIGIT_0 + 9
  }

  predicate IsHex(c: nat) {
    IsNumber(c) || LOWER_A <= c <= LOWER_F || UPPER_A <= c <= UPPER_A + 5
  }

  function HexValue(c: nat): (n: nat)
    requires IsHex(c)
    ensures n < 16
  {
    if IsNumber(c) then c - DIGIT_0
    else if LOWER_A <= c <= LOWER_F then c - LOWER_A + 10
    else c - UPPER_A + 10
  }

  /** The first n characters, read as hexadecimal digits. */
  predicate AllHex(t: seq<nat>, n: nat) {
    n <= |t| && forall i :: 0 <= i < n ==> IsHex(t[i])
  }

  function HexNumber(t: seq<nat>, n: nat): (v: nat)
    requires AllHex(t, n)
  {
    if n == 0 then 0 else HexNumber(t, n - 1) * 16 + HexValue(t[n - 1])
  }

  /** parse_unicode's bytes; the middle byte of the three-byte form keeps five bits only. */
  function EncodeUnicode(cp: nat): (t: seq<nat>)
    requires cp <= 0x10ffff
  {
    if cp <= 0x7f then [cp]
    else if cp <= 0x7ff then [0xc0 + cp / 64 % 32, 0x80 + cp % 64]
    else if cp <= 0xffff then [0xe0 + cp / 4096 % 16, 0x80 + cp / 64 % 32, 0x80 + cp % 64]
    else [0xf0 + cp / 262144 % 8, 0x80 + cp / 4096 % 64, 0x80 + cp / 64 % 64, 0x80 + cp % 64]
  }

  predicate IsScalar(cp: nat) {
    !(0xd7ff < cp < 0xe000) && cp <= 0x10ffff
  }

  /** parse_unicode on the text from the u or U on. */
  function ReadUnicode(t: seq<nat>): (r: Reading)
    requires t != []
  {
    var n := if t[0] == UPPER_U then 8 else 4;
    if !AllHex(t[1..], n) then Failed
    else
      var cp := HexNumber(t[1..], n);
      if !IsScalar(cp) then Failed else Done(EncodeUnicode(cp), t[1 + n..])
  }

  /** parse_escape_code on the text from the backslash on. */
  function ReadEscape(t: seq<nat>): (r: Reading)
    requires t != []
    ensures r.Done? ==> |r.rest| < |t|
  {
    if |t| == 1 then Failed
    else if t[1] == LOWER_B then Done([BACKSPACE], t[2..])
    else if t[1] == LOWER_T then Done([TAB], t[2..])
    else if t[1] == LOWER_N then Done([LINE_FEED], t[2..])
    else if t[1] == LOWER_F then Done([FORM_FEED], t[2..])
    else if t[1] == LOWER_R then Done([CARRIAGE_RETURN], t[2..])
    else if t[1] == QUOTE then Done([QUOTE], t[2..])
    else if t[1] == BACKSLASH then Done([BACKSLASH], t[2..])
    else if t[1] == LOWER_U || t[1] == UPPER_U then ReadUnicode(t[1..])
    else Failed
  }

  function SkipBlanks(t: seq<nat>): (r: seq<nat>)
    ensures |r| <= |t|
  {
    if t != [] && (t[0] == SPACE || t[0] == TAB) then SkipBlanks(t[1..]) else t
  }

  /** Exactly the leading blanks go. */
  lemma {:induction false} SkipsLeadingBlanks(t: seq<nat>)
    ensures var r := SkipBlanks(t); var n := |t| - |r|;
            && r == t[n..] && (forall i :: 0 <= i < n ==> t[i] == SPACE || t[i] == TAB)
            && (r != [] ==> r[0] != SPACE && r[0] != TAB)
  {
    if t != [] && (t[0] == SPACE || t[0] == TAB) {
      SkipsLeadingBlanks(t[1..]);
      forall i | 0 <= i < |t| - |SkipBlanks(t)|
        ensures t[i] == SPACE || t[i] == TAB
      {
        if i > 0 {
          assert t[i] == t[1..][i - 1];
        }
      }
    }
  }

  function Prepend(v: seq<nat>, r: Reading): (r': Reading) {
    match r
    case Failed => Failed
    case Done(value, rest) => Done(v + value, rest)
  }

  /** string_literal on the text after the opening delimiter. */
  function ReadText(t: seq<nat>, delim: nat): (r: Reading)
    decreases |t|
  {
    if t == [] then Failed
    else if delim == QUOTE && t[0] == BACKSLASH then
      match ReadEscape(t)
      case Failed => Failed
      case Done(value, rest) => Prepend(value, ReadText(rest, delim))
    else if t[0] == delim then Done([], SkipBlanks(t[1..]))
    else Prepend([t[0]], ReadText(t[1..], delim))
  }

  lemma ReadOne(t: seq<nat>, delim: nat)
    requires t != []
    ensures delim == QUOTE && t[0] == BACKSLASH ==>
              ReadText(t, delim) == var e := ReadEscape(t);
                                    if e.Done? then Prepend(e.value, ReadText(e.rest, delim)) else Failed
    ensures !(delim == QUOTE && t[0] == BACKSLASH) ==>
              ReadText(t, delim) == if t[0] == delim then Done([], SkipBlanks(t[1..]))
                                    else Prepend([t[0]], ReadText(t[1..], delim))
  {
    hide ReadEscape, SkipBlanks;
  }

  // ---------- the reader's loops ----------

  /** The weight of the first of n digits; 0 when none is left. */
  function Place(n: nat): (p: nat)
    ensures p > 0 <==> n > 0
  {
    if n == 0 then 0 else if n == 1 then 1 else 16 * Place(n - 1)
  }

  /** parse_hex: each digit counts with its place, from the highest down. */
  method ParseHex(text: seq<nat>, start: nat, digits: nat) returns (ok: bool, value: nat, it: nat)
    requires start <= |text|
    ensures ok == AllHex(text[start..], digits)
    ensures ok ==> it == start + digits && value == HexNumber(text[start..], digits)
  {
    hide HexNumber, Place, IsHex, HexValue;
    var t := text[start..];
    it, value, ok := start, 0, true;
    var place := Place(digits);
    ghost var n := 0;
    assert Accumulated(t, 0, digits, 0, place) by { NoDigits(t, digits); }
    while place > 0
      invariant 0 <= n <= digits && it == start + n && AllHex(t, n) && place == Place(digits - n)
      invariant Accumulated(t, n, digits, value, place)
    {
      if it == |text| || !IsHex(text[it]) {
        assert n < |t| ==> !IsHex(t[n]);
        return false, value, it;
      }
      assert t[n] == text[it];
      DigitStep(t, n, digits, value, place);
      value := value + place * HexValue(text[it]);
      place := place / 16;
      it, n := it + 1, n + 1;
    }
  }

  /** After n digits the value is theirs, scaled to the digits still to come. */
  ghost predicate Accumulated(t: seq<nat>, n: nat, digits: nat, value: nat, place: nat)
    requires AllHex(t, n)
  {
    value == HexNumber(t, n) * (if place == 0 then 1 else 16 * place)
  }

  lemma NoDigits(t: seq<nat>, digits: nat)
    ensures AllHex(t, 0) && Accumulated(t, 0, digits, 0, Place(digits))
  {
  }

  lemma DigitStep(t: seq<nat>, n: nat, digits: nat, value: nat, place: nat)
    requires n < digits && place == Place(digits - n) && AllHex(t, n + 1) && AllHex(t, n)
    requires Accumulated(t, n, digits, value, place)
    ensures place / 16 == Place(digits - n - 1)
    ensures Accumulated(t, n + 1, digits, value + place * HexValue(t[n]), place / 16)
  {
    hide IsHex, HexValue;
    var v, d := HexNumber(t, n), HexValue(t[n]);
    assert HexNumber(t, n + 1) == v * 16 + d;
    Shifted(v, d, place);
    if digits - n > 1 {
      assert place == 16 * Place(digits - n - 1);
    }
  }

  lemma Shifted(v: int, d: int, place: int)
    ensures v * (16 * place) + place * d == (v * 16 + d) * place
  {
  }

  method ParseUnicode(text: seq<nat>, start: nat) returns (ok: bool, value: seq<nat>, it: nat)
    requires start < |text|
    ensures ok == ReadUnicode(text[start..]).Done?
    ensures ok ==> start < it <= |text| && Done(value, text[it..]) == ReadUnicode(text[start..])
  {
    var digits := if text[start] == UPPER_U then 8 else 4;
    assert text[start..][1..] == text[start + 1..];
    var cp;
    ok, cp, it := ParseHex(text, start + 1, digits);
    value := [];
    if ok {
      if !IsScalar(cp) {
        return false, [], it;
      }
      value := EncodeUnicode(cp);
      assert text[start..][1 + digits..] == text[it..];
    }
  }

  method ParseEscapeCode(text: seq<nat>, start: nat) returns (ok: bool, value: seq<nat>, it: nat)
    requires start < |text|
    ensures ok == ReadEscape(text[start..]).Done?
    ensures ok ==> start < it <= |text| && Done(value, text[it..]) == ReadEscape(text[start..])
  {
    it := start + 1;
    assert text[start..][1..] == text[it..];
    if it == |text| {
      return false, [], it;
    }
    var c := text[it];
    if c == LOWER_B {
      value := [BACKSPACE];
    } else if c == LOWER_T {
      value := [TAB];
    } else if c == LOWER_N {
      value := [LINE_FEED];
    } else if c == LOWER_F {
      value := [FORM_FEED];
    } else if c == LOWER_R {
      value := [CARRIAGE_RETURN];
    } else if c == QUOTE {
      value := [QUOTE];
    } else if c == BACKSLASH {
      value := [BACKSLASH];
    } else if c == LOWER_U || c == UPPER_U {
      ok, value, it := ParseUnicode(text, it);
      return;
    } else {
      return false, [], it;
    }
    it := it + 1;
    ok := true;
    assert text[start..][2..] == text[it..];
  }

  method ConsumeWhitespace(text: seq<nat>, start: nat) returns (it: nat)
    requires start <= |text|
    ensures it <= |text| && text[it..] == SkipBlanks(text[start..])
  {
    hide SkipBlanks;
    it := start;
    while it < |text| && (text[it] == SPACE || text[it] == TAB)
      invariant start <= it <= |text| && SkipBlanks(text[it..]) == SkipBlanks(text[start..])
      decreases |text| - it
    {
      BlankStep(text, it);
      it := it + 1;
    }
    if it < |text| {
      BlankStep(text, it);
    } else {
      NoBlanks();
    }
  }

  lemma NoBlanks()
    ensures SkipBlanks([]) == []
  {
  }

  lemma BlankStep(text: seq<nat>, it: nat)
    requires it < |text|
    ensures SkipBlanks(text[it..]) == if text[it] == SPACE || text[it] == TAB then SkipBlanks(text[it + 1..]) else text[it..]
  {
    assert text[it..][1..] == text[it + 1..];
  }

  /** string_literal: the loop over the text from the opening delimiter at start. */
  method StringLiteral(text: seq<nat>, start: nat, delim: nat) returns (ok: bool, val: seq<nat>, it: nat)
    requires start < |text|
    ensures ok == ReadText(text[start + 1..], delim).Done?
    ensures ok ==> it <= |text| && Done(val, text[it..]) == ReadText(text[start + 1..], delim)
  {
    hide ReadText, ReadEscape, SkipBlanks;
    it, val := start + 1, [];
    while it < |text|
      invariant start < it <= |text|
      invariant ReadText(text[start + 1..], delim) == Prepend(val, ReadText(text[it..], delim))
      decreases |text| - it
    {
      assert text[it..][0] == text[it] && text[it..][1..] == text[it + 1..];
      ReadOne(text[it..], delim);
      if delim == QUOTE && text[it] == BACKSLASH {
        var good, value, next := ParseEscapeCode(text, it);
        if !good {
          return false, val, it;
        }
        Assoc(val, value, ReadText(text[next..], delim));
        val, it := val + value, next;
      } else if text[it] == delim {
        it := ConsumeWhitespace(text, it + 1);
        return true, val, it;
      } else {
        Assoc(val, [text[it]], ReadText(text[it + 1..], delim));
        val, it := val + [text[it]], it + 1;
      }
    }
    ok := false;
    assert text[it..] == [] && ReadText([], delim) == Failed by { NothingToRead(delim); }
  }

  lemma NothingToRead(delim: nat)
    ensures ReadText([], delim) == Failed
  {
  }

  lemma Assoc(a: seq<nat>, b: seq<nat>, r: Reading)
    ensures Prepend(a, Prepend(b, r)) == Prepend(a + b, r)
  {
    if r.Done? {
      assert a + (b + r.value) == (a + b) + r.value;
    }
  }

  // ---------- the round trip ----------

  /** A control byte with no short escape: written as an unpadded \u. */
  predicate IsBare(c: nat) {
    c <= 0x1f && c != BACKSPACE && c != TAB && c != LINE_FEED && c != FORM_FEED && c != CARRIAGE_RETURN
  }

  ghost predicate Clean(s: seq<nat>) {
    forall i :: 0 <= i < |s| ==> !IsBare(s[i])
  }

  /** The text the writer leaves for the reader: escaped string, closing quote, whatever follows. */
  function Tail(s: seq<nat>, after: seq<nat>): (t: seq<nat>) {
    Escaped(s) + [QUOTE] + after
  }

  lemma TailStep(s: seq<nat>, after: seq<nat>)
    requires s != []
    ensures Tail(s, after) == EscapeByte(s[0]) + Tail(s[1..], after)
  {
  }

  /** A byte that is not bare is read back by itself. */
  lemma PlainStep(s: seq<nat>, after: seq<nat>)
    requires s != [] && !IsBare(s[0])
    ensures ReadText(Tail(s, after), QUOTE) == Prepend([s[0]], ReadText(Tail(s[1..], after), QUOTE))
  {
    hide ReadText, Tail, Escaped;
    TailStep(s, after);
    var c, t, e, rest := s[0], Tail(s, after), EscapeByte(s[0]), Tail(s[1..], after);
    ReadOne(t, QUOTE);
    if |e| == 2 {
      assert t[0] == e[0] && t[1] == e[1] && t[2..] == rest;
    } else {
      assert t[0] == c && t[1..] == rest;
    }
  }

  lemma NothingEscaped()
    ensures Escaped([]) == []
  {
  }

  /** Hexadecimal characters in the written text can only be string bytes written as themselves. */
  lemma {:induction false} HexComesFromString(s: seq<nat>, after: seq<nat>, n: nat)
    requires AllHex(Tail(s, after), n)
    ensures n <= |s| && Tail(s, after)[n..] == Tail(s[n..], after)
    ensures forall i :: 0 <= i < n ==> s[i] == Tail(s, after)[i]
  {
    hide Escaped;
    var t := Tail(s, after);
    if n > 0 {
      assert IsHex(t[0]);
      assert s == [] ==> Escaped(s) == [] by { NothingEscaped(); }
      if s != [] {
        TailStep(s, after);
        assert t[0] == EscapeByte(s[0])[0] && IsHex(t[0]);
        assert EscapeByte(s[0]) == [s[0]];
        var rest := Tail(s[1..], after);
        assert t == [s[0]] + rest;
        assert forall i :: 0 <= i < n - 1 ==> rest[i] == t[i + 1];
        HexComesFromString(s[1..], after, n - 1);
        assert s[1..][n - 1..] == s[n..] && t[n..] == rest[n - 1..];
        forall i | 0 <= i < n
          ensures s[i] == t[i]
        {
          if i > 0 {
            assert s[i] == s[1..][i - 1] && t[i] == rest[i - 1];
          }
        }
      }
    }
  }

  /** The value of n hexadecimal digits lies below 16^n. */
  lemma FourDigits(t: seq<nat>)
    requires AllHex(t, 4)
    ensures HexNumber(t, 4) == HexValue(t[0]) * 4096 + HexValue(t[1]) * 256 + HexValue(t[2]) * 16 + HexValue(t[3])
  {
    assert HexNumber(t, 1) == HexValue(t[0]);
    assert HexNumber(t, 2) == HexNumber(t, 1) * 16 + HexValue(t[1]);
    assert HexNumber(t, 3) == HexNumber(t, 2) * 16 + HexValue(t[2]);
  }

  lemma HexBack(n: nat)
    requires n < 16
    ensures IsHex(HexDigit(n)) && HexValue(HexDigit(n)) == n
  {
  }

  /** How many bytes of the string the \u of a bare byte swallows, the byte itself included. */
  function Swallowed(c: nat): (n: nat) {
    if c < 16 then 4 else 3
  }

  lemma UnicodeSize(cp: nat)
    requires IsScalar(cp) && cp <= 0xffff
    ensures 0 < |EncodeUnicode(cp)| <= 3 && (cp >= 4096 ==> EncodeUnicode(cp)[0] >= 0xe0)
  {
  }

  /** Reading a bare byte either fails or takes the next bytes of the string for digits. */
  lemma BareStep(s: seq<nat>, after: seq<nat>)
    requires s != [] && IsBare(s[0])
    ensures var r := ReadText(Tail(s, after), QUOTE); var n := Swallowed(s[0]);
            r == Failed
            || (n <= |s| && exists v ::
                  && r == Prepend(v, ReadText(Tail(s[n..], after), QUOTE))
                  && 0 < |v| <= 3 && (s[0] >= 16 ==> v[0] >= 0xe0))
  {
    hide ReadText, Tail, Escaped, EncodeUnicode, HexNumber, HexValue;
    TailStep(s, after);
    var c, t, rest := s[0], Tail(s, after), Tail(s[1..], after);
    var digits, k := Hex(c), 4 - |Hex(c)|;
    assert t == [BACKSLASH, LOWER_U] + digits + rest;
    ReadOne(t, QUOTE);
    var u := t[2..];
    assert t[1..][1..] == u && u == digits + rest;
    if AllHex(u, 4) {
      assert t[1..][5..] == t[6..];
      forall i | 0 <= i < k
        ensures IsHex(rest[i])
      {
        assert rest[i] == u[|digits| + i];
      }
      HexComesFromString(s[1..], after, k);
      FourDigits(u);
      assert u[0] == digits[0];
      HexBack(if c < 16 then c else c / 16);
      assert t[6..] == rest[k..] && s[1..][k..] == s[1 + k..];
      var cp := HexNumber(u, 4);
      if IsScalar(cp) {
        UnicodeSize(cp);
        assert c >= 16 ==> cp >= 4096;
        assert ReadEscape(t) == Done(EncodeUnicode(cp), t[6..]);
      }
    }
  }

  /** The reader never returns more bytes than the string had. */
  lemma {:induction false} NeverLonger(s: seq<nat>, after: seq<nat>)
    ensures var r := ReadText(Tail(s, after), QUOTE); r.Done? ==> |r.value| <= |s|
    decreases |s|
  {
    var r := ReadText(Tail(s, after), QUOTE);
    hide ReadText, Tail;
    if s == [] {
      EmptyTail(after);
    } else if !IsBare(s[0]) {
      PlainStep(s, after);
      NeverLonger(s[1..], after);
    } else {
      BareStep(s, after);
      var n := Swallowed(s[0]);
      if r.Done? {
        NeverLonger(s[n..], after);
      }
    }
  }

  lemma EmptyTail(after: seq<nat>)
    ensures ReadText(Tail([], after), QUOTE) == Done([], SkipBlanks(after))
  {
    hide SkipBlanks;
    assert Tail([], after) == [QUOTE] + after;
    assert Tail([], after)[1..] == after;
  }

  /** Reading back what was written returns the string, past the closing quote and the blanks
      after it, exactly when no byte is a control byte without a short escape. */
  lemma {:induction false} RoundTripIff(s: seq<nat>, after: seq<nat>)
    ensures ReadText(Tail(s, after), QUOTE) == Done(s, SkipBlanks(after)) <==> Clean(s)
    decreases |s|
  {
    var r := ReadText(Tail(s, after), QUOTE);
    hide ReadText, Tail, SkipBlanks;
    if s == [] {
      EmptyTail(after);
    } else if !IsBare(s[0]) {
      PlainStep(s, after);
      RoundTripIff(s[1..], after);
      CleanStep(s);
      var r' := ReadText(Tail(s[1..], after), QUOTE);
      if r'.Done? {
        FirstByte(s, r');
      }
    } else {
      BareStep(s, after);
      var n := Swallowed(s[0]);
      if r.Done? {
        NeverLonger(s[n..], after);
      }
    }
  }

  lemma FirstByte(s: seq<nat>, r: Reading)
    requires s != [] && r.Done?
    ensures [s[0]] + r.value == s <==> r.value == s[1..]
  {
    assert ([s[0]] + r.value)[1..] == r.value;
  }

  lemma CleanStep(s: seq<nat>)
    requires s != [] && !IsBare(s[0])
    ensures Clean(s) <==> Clean(s[1..])
  {
    if Clean(s[1..]) {
      forall i | 0 <= i < |s|
        ensures !IsBare(s[i])
      {
        if i > 0 {
          assert s[i] == s[1..][i - 1];
        }
      }
    }
  }

  /** Distinct strings are written differently when both are clean. */
  lemma EscapedInjective(s: seq<nat>, t: seq<nat>)
    requires Clean(s) && Clean(t)
    ensures Escaped(s) == Escaped(t) <==> s == t
  {
    RoundTripIff(s, []);
    RoundTripIff(t, []);
  }

  /** A bare byte before hexadecimal digits, 0x01 then "234": accepted, and read as U+1234. */
  lemma BareByteMisread()
    ensures ReadText(Tail([1, 50, 51, 52], []), QUOTE) == Done([0xe1, 0x88, 0xb4], [])
  {
    hide ReadText, Tail;
    var t := [BACKSLASH, LOWER_U, 49, 50, 51, 52, QUOTE];
    MisreadText();
    ReadOne(t, QUOTE);
    var u := t[1..][1..];
    assert u == [49, 50, 51, 52, QUOTE];
    FourDigits(u);
    assert t[1..][5..] == [QUOTE];
    assert ReadEscape(t) == Done([0xe1, 0x88, 0xb4], [QUOTE]);
    ReadOne([QUOTE], QUOTE);
  }

  lemma MisreadText()
    ensures Tail([1, 50, 51, 52], []) == [BACKSLASH, LOWER_U, 49, 50, 51, 52, QUOTE]
  {
    var s := [1, 50, 51, 52];
    assert s[1..] == [50, 51, 52] && [50, 51, 52][1..] == [51, 52] && [51, 52][1..] == [52] && [52][1..] == [];
    hide Tail, Escaped;
    TailStep(s, []);
    TailStep([50, 51, 52], []);
    TailStep([51, 52], []);
    TailStep([52], []);
    assert Tail([], []) == [QUOTE] by { NothingWritten(); }
  }

  lemma NothingWritten()
    ensures Tail([], []) == [QUOTE]
  {
  }

  // ---------- Unicode escapes ----------

  /** Section 3 of RFC 3629. */
  function Utf8(cp: nat): (t: seq<nat>)
    requires cp <= 0x10ffff
  {
    if cp <= 0x7f then [cp]
    else if cp <= 0x7ff then [0xc0 + cp / 64, 0x80 + cp % 64]
    else if cp <= 0xffff then [0xe0 + cp / 4096, 0x80 + cp / 64 % 64, 0x80 + cp % 64]
    else [0xf0 + cp / 262144, 0x80 + cp / 4096 % 64, 0x80 + cp / 64 % 64, 0x80 + cp % 64]
  }

  /** Unicode escapes decode to UTF-8 exactly when the code point is not a three-byte one with bit 11 set. */
  lemma UnicodeIsUtf8Iff(cp: nat)
    requires IsScalar(cp)
    ensures EncodeUnicode(cp) == Utf8(cp) <==> !(0x800 <= cp <= 0xffff && cp / 2048 % 2 == 1)
  {
    if cp <= 0x7f {
    } else if cp <= 0x7ff {
      assert cp / 64 % 32 == cp / 64;
    } else if cp <= 0xffff {
      ThreeBytes(cp);
    } else {
      assert cp / 262144 % 8 == cp / 262144;
    }
  }

  lemma ThreeBytes(cp: nat)
    requires 0x800 <= cp <= 0xffff
    ensures cp / 4096 % 16 == cp / 4096
    ensures cp / 64 % 32 == cp / 64 % 64 <==> cp / 2048 % 2 == 0
  {
    MiddleBits(cp);
  }

  lemma MiddleBits(cp: nat)
    ensures cp / 64 % 64 == cp / 64 % 32 + 32 * (cp / 2048 % 2)
  {
    DivDiv(cp, 64, 32);
    SixBits(cp / 64);
  }

  lemma SixBits(x: nat)
    ensures x % 64 == x % 32 + 32 * (x / 32 % 2)
  {
    var q := x / 32;
    DivMod(x, 32);
    DivMod(q, 2);
    DivUnique(x, 64, q / 2, 32 * (q % 2) + x % 32);
  }

  /** The first code point on which the two differ: the escape for U+0800. */
  lemma EscapeOf0800Misread()
    ensures ReadEscape([BACKSLASH, LOWER_U, 48, 56, 48, 48]) == Done([0xe0, 0x80, 0x80], [])
    ensures Utf8(0x800) == [0xe0, 0xa0, 0x80]
  {
    var t := [BACKSLASH, LOWER_U, 48, 56, 48, 48];
    var u := t[1..][1..];
    assert u == [48, 56, 48, 48] && t[1..][5..] == [];
    FourDigits(u);
  }
}

/** cpptoml's zone offsets: how an offset is printed after a date and time, and how it is read back. */
module TomlOffset {
  import opened TomlString

  const PLUS: nat := 43
  const MINUS: nat := 45
  const COLON: nat := 58
  const UPPER_Z: nat := 90

  datatype Offset = Offset(hour: int, minute: int)

  /** NoOffset: the text ends before an offset, so the value is a local date and time. */
  datatype OffsetReading = Read(offset: Offset) | NoOffset | Malformed

  function Abs(x: int): (r: nat) {
    if x < 0 then -x else x
  }

  // ---------- printing ----------

  function Decimal(n: nat): (t: seq<nat>) {
    if n < 10 then [DIGIT_0 + n] else Decimal(n / 10) + [DIGIT_0 + n % 10]
  }

  /** At least two characters wide, filled with zeros. */
  function TwoWide(n: nat): (t: seq<nat>) {
    if n < 10 then [DIGIT_0] + Decimal(n) else Decimal(n)
  }

  /** The sign is the hour's, and a zero hour counts as negative. */
  function Print(o: Offset): (t: seq<nat>) {
    if o.hour != 0 || o.minute != 0 then
      [if o.hour > 0 then PLUS else MINUS] + TwoWide(Abs(o.hour)) + [COLON] + TwoWide(Abs(o.minute))
    else [UPPER_Z]
  }

  // ---------- reading ----------

  predicate DigitsAt(t: seq<nat>, p: nat, n: nat) {
    p + n <= |t| && forall i :: p <= i < p + n ==> IsNumber(t[i])
  }

  function DigitsValue(t: seq<nat>, p: nat, n: nat): (v: nat)
    requires DigitsAt(t, p, n)
  {
    if n == 0 then 0 else 10 * DigitsValue(t, p, n - 1) + (t[p + n - 1] - DIGIT_0)
  }

  predicate IsSigned(t: seq<nat>) {
    |t| == 6 && DigitsAt(t, 1, 2) && t[3] == COLON && DigitsAt(t, 4, 2)
  }

  /** The end of parse_date, on the text that is left of the date. */
  function ReadOffset(t: seq<nat>): (r: OffsetReading) {
    if t == [] then NoOffset
    else if t[0] == PLUS || t[0] == MINUS then
      if !IsSigned(t) then Malformed
      else
        var h, m := DigitsValue(t, 1, 2), DigitsValue(t, 4, 2);
        Read(if t[0] == PLUS then Offset(h, m) else Offset(0 - h, 0 - m))
    else if t == [UPPER_Z] then Read(Offset(0, 0))
    else Malformed
  }

  /** consumer::eat_digits */
  method EatDigits(t: seq<nat>, start: nat, len: nat) returns (ok: bool, val: nat, it: nat)
    requires start <= |t|
    ensures ok == DigitsAt(t, start, len)
    ensures ok ==> it == start + len && val == DigitsValue(t, start, len)
  {
    it, val, ok := start, 0, true;
    var i := 0;
    while i < len
      invariant 0 <= i <= len && it == start + i && DigitsAt(t, start, i) && val == DigitsValue(t, start, i)
    {
      if it == |t| || !IsNumber(t[it]) {
        return false, val, it;
      }
      val := 10 * val + (t[it] - DIGIT_0);
      it, i := it + 1, i + 1;
    }
  }

  method ParseOffset(t: seq<nat>) returns (r: OffsetReading)
    ensures r == ReadOffset(t)
  {
    if t == [] {
      return NoOffset;
    }
    var it, o := 0, Offset(0, 0);
    if t[it] == PLUS || t[it] == MINUS {
      var plus := t[it] == PLUS;
      it := it + 1;
      var ok, h, m;
      ok, h, it := EatDigits(t, it, 2);
      if !ok || it == |t| || t[it] != COLON {
        return Malformed;
      }
      it := it + 1;
      ok, m, it := EatDigits(t, it, 2);
      if !ok {
        return Malformed;
      }
      var hour: int, minute: int := h, m;
      if plus {
        o := Offset(hour, minute);
      } else {
        o := Offset(-hour, -minute);
      }
    } else if t[it] == UPPER_Z {
      it := it + 1;
    }
    r := if it != |t| then Malformed else Read(o);
    assert t[0] == UPPER_Z && |t| == 1 ==> t == [UPPER_Z];
  }

  // ---------- the round trip ----------

  lemma TwoDigitsPrinted(n: nat)
    requires n < 100
    ensures TwoWide(n) == [DIGIT_0 + n / 10, DIGIT_0 + n % 10]
  {
    if n >= 10 {
      assert Decimal(n / 10) == [DIGIT_0 + n / 10];
    }
  }

  lemma {:induction false} DecimalDigits(n: nat)
    ensures Decimal(n) != [] && forall i :: 0 <= i < |Decimal(n)| ==> IsNumber(Decimal(n)[i])
    ensures n >= 10 ==> |Decimal(n)| >= 2
    ensures n >= 100 ==> |Decimal(n)| >= 3
  {
    if n >= 10 {
      DecimalDigits(n / 10);
    }
  }

  /** Both fields have at most two digits, and the minute has the sign the hour prints. */
  predicate Printable(o: Offset) {
    Abs(o.hour) < 100 && Abs(o.minute) < 100 && (if o.hour > 0 then o.minute >= 0 else o.minute <= 0)
  }

  /** Printing and reading an offset agree exactly on the printable ones. */
  lemma RoundTripIff(o: Offset)
    ensures ReadOffset(Print(o)) == Read(o) <==> Printable(o)
  {
    var h, m := Abs(o.hour), Abs(o.minute);
    if o.hour == 0 && o.minute == 0 {
    } else if h >= 100 {
      HourTooWide(o);
    } else if m >= 100 {
      MinuteTooWide(o);
    } else {
      ReadBack(o);
    }
  }

  lemma HourTooWide(o: Offset)
    requires Abs(o.hour) >= 100
    ensures ReadOffset(Print(o)) == Malformed
  {
    var t, hour := Print(o), TwoWide(Abs(o.hour));
    DecimalDigits(Abs(o.hour));
    assert t[3] == hour[2] && IsNumber(hour[2]);
  }

  lemma MinuteTooWide(o: Offset)
    requires Abs(o.hour) < 100 <= Abs(o.minute)
    ensures ReadOffset(Print(o)) == Malformed
  {
    TwoDigitsPrinted(Abs(o.hour));
    DecimalDigits(Abs(o.minute));
    assert |Print(o)| >= 7;
  }

  lemma ReadBack(o: Offset)
    requires Abs(o.hour) < 100 && Abs(o.minute) < 100 && (o.hour != 0 || o.minute != 0)
    ensures ReadOffset(Print(o))
            == Read(if o.hour > 0 then Offset(Abs(o.hour), Abs(o.minute)) else Offset(0 - Abs(o.hour), 0 - Abs(o.minute)))
  {
    var t, h, m := Print(o), Abs(o.hour), Abs(o.minute);
    TwoDigitsPrinted(h);
    TwoDigitsPrinted(m);
    assert t[1..3] == TwoWide(h) && t[4..6] == TwoWide(m);
    TwoDigitsRead(t, 1, h);
    TwoDigitsRead(t, 4, m);
  }

  lemma TwoDigitsRead(t: seq<nat>, p: nat, n: nat)
    requires n < 100 && p + 2 <= |t| && t[p] == DIGIT_0 + n / 10 && t[p + 1] == DIGIT_0 + n % 10
    ensures DigitsAt(t, p, 2) && DigitsValue(t, p, 2) == n
  {
    assert DigitsValue(t, p, 1) == t[p] - DIGIT_0;
  }

  /** Half an hour east of UTC is printed and read as half an hour west. */
  lemma HalfHourEast()
    ensures ReadOffset(Print(Offset(0, 30))) == Read(Offset(0, 0 - 30))
  {
    ReadBack(Offset(0, 30));
  }

  // ---------- every text ----------

  /** A sign, two digits, a colon, two digits. */
  function SignedText(plus: bool, h: nat, m: nat): (t: seq<nat>) {
    [if plus then 43 else 45, 48 + h / 10, 48 + h % 10, 58, 48 + m / 10, 48 + m % 10]
  }

  function Signed(plus: bool, h: nat, m: nat): (o: Offset) {
    if plus then Offset(h, m) else Offset(0 - h, 0 - m)
  }

  lemma SignedRead(plus: bool, h: nat, m: nat)
    requires h < 100 && m < 100
    ensures ReadOffset(SignedText(plus, h, m)) == Read(Signed(plus, h, m))
  {
    var t := SignedText(plus, h, m);
    TwoDigitsRead(t, 1, h);
    TwoDigitsRead(t, 4, m);
  }

  ghost predicate IsSignedText(t: seq<nat>, o: Offset) {
    exists plus, h: nat, m: nat :: h < 100 && m < 100 && t == SignedText(plus, h, m) && o == Signed(plus, h, m)
  }

  /** The texts of an offset: signed hours and minutes with the sign on both, or Z; no text means none. */
  lemma ReadIff(t: seq<nat>, o: Offset)
    ensures ReadOffset(t) == Read(o) <==> IsSignedText(t, o) || (t == [90] && o == Offset(0, 0))
    ensures ReadOffset(t) == NoOffset <==> t == []
  {
    forall plus, h: nat, m: nat | h < 100 && m < 100
      ensures ReadOffset(SignedText(plus, h, m)) == Read(Signed(plus, h, m))
    {
      SignedRead(plus, h, m);
    }
    if t != [] && (t[0] == PLUS || t[0] == MINUS) && IsSigned(t) {
      var h, m := DigitsValue(t, 1, 2), DigitsValue(t, 4, 2);
      TwoDigits(t, 1);
      TwoDigits(t, 4);
      assert t == SignedText(t[0] == PLUS, h, m);
    }
  }

  lemma TwoDigits(t: seq<nat>, p: nat)
    requires DigitsAt(t, p, 2)
    ensures var n := DigitsValue(t, p, 2); n < 100 && t[p] == 48 + n / 10 && t[p + 1] == 48 + n % 10
  {
    assert DigitsValue(t, p, 1) == t[p] - DIGIT_0 by { assert DigitsValue(t, p, 0) == 0; }
  }
}

/** JSON numbers: section 6 of RFC 8259 as a grammar, and the parser's way of reading it. */
module Numbers {
  import opened Base
  import opened Json
  import opened Text

  // ---------- the grammar ----------

  datatype Exponent = NoExponent | Exponent(mark: byte, sign: bytes, digits: bytes)

  datatype Number = Number(negative: bool, integer: bytes, fraction: Option<bytes>, exponent: Exponent)

  predicate IsDigit(b: byte) {
    48 <= b <= 57
  }

  predicate AreDigits(t: bytes) {
    forall k :: 0 <= k < |t| ==> IsDigit(t[k])
  }

  predicate IntegerOk(t: bytes) {
    |t| > 0 && AreDigits(t) && (|t| > 1 ==> t[0] != 48)
  }

  predicate FractionOk(f: Option<bytes>) {
    f.Some? ==> |f.value| > 0 && AreDigits(f.value)
  }

  predicate ExponentOk(e: Exponent) {
    e.Exponent? ==>
      && (e.mark == 101 || e.mark == 69)
      && (e.sign == [] || e.sign == [43] || e.sign == [45])
      && |e.digits| > 0 && AreDigits(e.digits)
  }

  predicate NumberOk(n: Number) {
    IntegerOk(n.integer) && FractionOk(n.fraction) && ExponentOk(n.exponent)
  }

  function SignChars(negative: bool): bytes {
    if negative then [45] else []
  }

  function FractionChars(f: Option<bytes>): bytes {
    if f.Some? then [46] + f.value else []
  }

  function ExponentChars(e: Exponent): bytes {
    if e.Exponent? then [e.mark] + e.sign + e.digits else []
  }

  function NumberChars(n: Number): bytes {
    SignChars(n.negative) + n.integer + (FractionChars(n.fraction) + ExponentChars(n.exponent))
  }

  predicate IsFloat(n: Number) {
    n.fraction.Some? || n.exponent.Exponent?
  }

  // ---------- the value ----------

  /** Decimal digits as a number. */
  function DigitsValue(t: bytes): int {
    if t == [] then 0 else DigitsValue(t[..|t| - 1]) * 10 + (t[|t| - 1] as int - 48)
  }

  /** Decimal digits by their places: each counts as often as the power of ten for the digits behind it says. */
  function PlaceValue(t: bytes): int {
    if t == [] then 0 else Worth(t[0], Pow10(|t| - 1)) + PlaceValue(t[1..])
  }

  /** What a digit is worth at a place. */
  function Worth(digit: byte, place: nat): int {
    (digit as int - 48) * place
  }

  /** An integer of the grammar, from the places of its digits. */
  function SignedValue(n: Number): int {
    if n.negative then -PlaceValue(n.integer) else PlaceValue(n.integer)
  }

  /** The value that is accumulated digit by digit is the sum over the places. */
  lemma {:induction false} DigitsPlaces(t: bytes)
    ensures DigitsValue(t) == PlaceValue(t)
    decreases |t|
  {
    if t != [] {
      PlaceLast(t[..|t| - 1], t[|t| - 1]);
      assert t[..|t| - 1] + [t[|t| - 1]] == t;
      DigitsPlaces(t[..|t| - 1]);
    }
  }

  lemma {:induction false} PlaceLast(t: bytes, last: byte)
    ensures PlaceValue(t + [last]) == PlaceValue(t) * 10 + (last as int - 48)
  {
    hide Worth;
    LastPlace(last);
    if t == [] {
      assert t + [last] == [last] && [last][1..] == [];
    } else {
      PlaceLast(t[1..], last);
      assert (t + [last])[1..] == t[1..] + [last];
      TenMore(t[0], Pow10(|t| - 1));
    }
  }

  lemma LastPlace(digit: byte)
    ensures Worth(digit, Pow10(0)) == digit as int - 48
  {
  }

  lemma TenMore(digit: byte, place: nat)
    ensures Worth(digit, 10 * place) == Worth(digit, place) * 10
  {
  }

  lemma {:induction false} PlacesPositive(t: bytes)
    requires AreDigits(t)
    ensures PlaceValue(t) >= 0
  {
    hide Worth, Pow10;
    if t != [] {
      PlacesPositive(t[1..]);
      WorthPositive(t[0], Pow10(|t| - 1));
    }
  }

  lemma WorthPositive(digit: byte, place: nat)
    requires IsDigit(digit)
    ensures Worth(digit, place) >= 0
  {
  }

  /** How std::from_chars turns decimal text into a double; the library does not define it. */
  type FloatReader = bytes -> Option<Double>

  /** parse_number's conversions: signed when it fits, then unsigned, never out of range. */
  function Convert(fp: FloatReader, text: bytes, isFloat: bool): (r: Option<Json>)
  {
    if isFloat then
      var d :- fp(text);
      if d == NonFinite then None else Some(JFloat(d))
    else if text != [] && text[0] == 45 then
      var v := -DigitsValue(text[1..]);
      if INT64_MIN <= v <= INT64_MAX then Some(JInt(v)) else None
    else
      var v := DigitsValue(text);
      if INT64_MIN <= v <= INT64_MAX then Some(JInt(v))
      else if 0 <= v <= UINT64_MAX then Some(JUInt(v))
      else None
  }

  lemma ConvertStorable(fp: FloatReader, text: bytes, isFloat: bool)
    requires Convert(fp, text, isFloat).Some?
    ensures Storable(Convert(fp, text, isFloat).value) && !Convert(fp, text, isFloat).value.JContainer?
  {
  }

  lemma IntegerChars(n: Number)
    requires NumberOk(n) && !IsFloat(n)
    ensures n.negative ==> NumberChars(n) == [45] + n.integer && NumberChars(n)[1..] == n.integer
    ensures !n.negative ==> NumberChars(n) == n.integer && n.integer[0] != 45
  {
  }

  // ---------- the reader ----------

  function SkipDigits(input: bytes, i: nat): (r: nat)
    requires i <= |input|
    ensures i <= r <= |input|
    decreases |input| - i
  {
    if i < |input| && IsDigit(input[i]) then SkipDigits(input, i + 1) else i
  }

  function ReadInteger(input: bytes, i: nat): (r: Option<nat>)
    requires i <= |input|
    ensures r.Some? ==> i < r.value <= |input|
  {
    if i == |input| || !IsDigit(input[i]) then None
    else if input[i] == 48 then
      if i + 1 < |input| && IsDigit(input[i + 1]) then None else Some(i + 1)
    else Some(SkipDigits(input, i))
  }

  function ReadFraction(input: bytes, i: nat): (r: Option<nat>)
    requires i <= |input|
    ensures r.Some? ==> i <= r.value <= |input|
  {
    if i < |input| && input[i] == 46 then
      if i + 1 < |input| && IsDigit(input[i + 1]) then Some(SkipDigits(input, i + 1)) else None
    else Some(i)
  }

  function ReadExponent(input: bytes, i: nat): (r: Option<nat>)
    requires i <= |input|
    ensures r.Some? ==> i <= r.value <= |input|
  {
    if i < |input| && (input[i] == 101 || input[i] == 69) then
      var j := if i + 1 < |input| && (input[i + 1] == 43 || input[i + 1] == 45) then i + 2 else i + 1;
      if j < |input| && IsDigit(input[j]) then Some(SkipDigits(input, j)) else None
    else Some(i)
  }

  /** The end of the integer part and the end of the number starting at `i`. */
  function ReadNumber(input: bytes, i: nat): (r: Option<(nat, nat)>)
    requires i < |input|
    ensures r.Some? ==> i < r.value.0 <= r.value.1 <= |input|
  {
    var whole :- ReadInteger(input, if input[i] == 45 then i + 1 else i);
    var fraction :- ReadFraction(input, whole);
    var end :- ReadExponent(input, fraction);
    Some((whole, end))
  }

  /** The byte at `i`, if any, cannot continue a number. */
  predicate Stops(input: bytes, i: nat) {
    i < |input| ==> !IsDigit(input[i]) && input[i] != 46 && input[i] != 101 && input[i] != 69
  }

  // ---------- reader and grammar agree ----------

  lemma {:induction false} SkipSound(input: bytes, i: nat)
    requires i <= |input|
    ensures forall k :: i <= k < SkipDigits(input, i) ==> IsDigit(input[k])
    ensures SkipDigits(input, i) < |input| ==> !IsDigit(input[SkipDigits(input, i)])
    decreases |input| - i
  {
    if i < |input| && IsDigit(input[i]) {
      SkipSound(input, i + 1);
    }
  }

  lemma {:induction false} SkipComplete(input: bytes, i: nat, t: bytes)
    requires AreDigits(t) && At(input, i, t)
    requires i + |t| < |input| ==> !IsDigit(input[i + |t|])
    ensures SkipDigits(input, i) == i + |t|
    decreases |t|
  {
    if t != [] {
      SkipComplete(input, i + 1, t[1..]);
    }
  }

  lemma SliceDigits(input: bytes, i: nat, j: nat)
    requires i <= j <= |input| && forall k :: i <= k < j ==> IsDigit(input[k])
    ensures AreDigits(input[i..j]) && At(input, i, input[i..j])
  {
    AtIsSlice(input, i, input[i..j]);
  }

  lemma FractionSound(input: bytes, i: nat) returns (f: Option<bytes>)
    requires i <= |input| && ReadFraction(input, i).Some?
    ensures FractionOk(f) && At(input, i, FractionChars(f))
    ensures ReadFraction(input, i).value == i + |FractionChars(f)|
  {
    f := None;
    if i < |input| && input[i] == 46 {
      var j := SkipDigits(input, i + 1);
      SkipSound(input, i + 1);
      SliceDigits(input, i + 1, j);
      f := Some(input[i + 1..j]);
      AtConcat(input, i, [46], f.value);
    }
  }

  lemma ExponentSound(input: bytes, i: nat) returns (e: Exponent)
    requires i <= |input| && ReadExponent(input, i).Some?
    ensures ExponentOk(e) && At(input, i, ExponentChars(e))
    ensures ReadExponent(input, i).value == i + |ExponentChars(e)|
  {
    e := NoExponent;
    if i < |input| && (input[i] == 101 || input[i] == 69) {
      var signed := i + 1 < |input| && (input[i + 1] == 43 || input[i + 1] == 45);
      var sign := if signed then [input[i + 1]] else [];
      var j := i + 1 + |sign|;
      SkipSound(input, j);
      SliceDigits(input, j, SkipDigits(input, j));
      e := Exponent(input[i], sign, input[j..SkipDigits(input, j)]);
      AtConcat(input, i, [input[i]], sign);
      AtConcat(input, i, [input[i]] + sign, e.digits);
    }
  }

  lemma IntegerSound(input: bytes, i: nat)
    requires i <= |input| && ReadInteger(input, i).Some?
    ensures var t := input[i..ReadInteger(input, i).value];
            IntegerOk(t) && At(input, i, t)
  {
    SkipSound(input, i);
    SliceDigits(input, i, ReadInteger(input, i).value);
  }

  lemma NumberAt(input: bytes, i: nat, n: Number)
    ensures var start := i + |SignChars(n.negative)|;
            var whole := start + |n.integer|;
            At(input, i, NumberChars(n)) <==>
            && At(input, i, SignChars(n.negative)) && At(input, start, n.integer)
            && At(input, whole, FractionChars(n.fraction))
            && At(input, whole + |FractionChars(n.fraction)|, ExponentChars(n.exponent))
    ensures |NumberChars(n)| ==
      |SignChars(n.negative)| + |n.integer| + |FractionChars(n.fraction)| + |ExponentChars(n.exponent)|
  {
    hide At, SignChars, FractionChars, ExponentChars;
    var s, f, e := SignChars(n.negative), FractionChars(n.fraction), ExponentChars(n.exponent);
    AtConcat(input, i + |s| + |n.integer|, f, e);
    AtConcat(input, i, s, n.integer);
    AtConcat(input, i, s + n.integer, f + e);
  }

  lemma FloatLength(n: Number)
    ensures n.fraction.Some? <==> |FractionChars(n.fraction)| > 0
    ensures n.exponent.Exponent? <==> |ExponentChars(n.exponent)| > 0
  {
  }

  /** Whatever the reader accepts is a number of the grammar. */
  lemma NumberSound(input: bytes, i: nat) returns (n: Number)
    requires i < |input| && ReadNumber(input, i).Some?
    ensures NumberOk(n) && At(input, i, NumberChars(n))
    ensures ReadNumber(input, i).value.1 == i + |NumberChars(n)|
    ensures (ReadNumber(input, i).value.0 != ReadNumber(input, i).value.1) == IsFloat(n)
  {
    hide At, AreDigits, ReadInteger, ReadFraction, ReadExponent, IntegerOk, FractionOk, ExponentOk, NumberChars,
         FractionChars, ExponentChars;
    var negative := input[i] == 45;
    var start := if negative then i + 1 else i;
    AtByte(input, i, 45);
    NothingAt(input, i);
    var whole := ReadInteger(input, start).value;
    IntegerSound(input, start);
    var fraction := FractionSound(input, whole);
    var after := ReadFraction(input, whole).value;
    var exponent := ExponentSound(input, after);
    n := Number(negative, input[start..whole], fraction, exponent);
    NumberAt(input, i, n);
    FloatLength(n);
  }

  lemma ExponentComplete(input: bytes, i: nat, n: Number)
    requires NumberOk(n) && At(input, i, ExponentChars(n.exponent)) && Stops(input, i + |ExponentChars(n.exponent)|)
    ensures i <= |input| && ReadExponent(input, i) == Some(i + |ExponentChars(n.exponent)|)
    ensures n.exponent.Exponent? ==> i < |input| && !IsDigit(input[i]) && input[i] != 46
  {
    if n.exponent.Exponent? {
      var e := n.exponent;
      AtConcat(input, i, [e.mark] + e.sign, e.digits);
      AtConcat(input, i, [e.mark], e.sign);
      var j := i + 1 + |e.sign|;
      SkipComplete(input, j, e.digits);
    }
  }

  lemma FractionComplete(input: bytes, i: nat, n: Number)
    requires NumberOk(n) && At(input, i, FractionChars(n.fraction))
    requires var j := i + |FractionChars(n.fraction)|; j < |input| ==> !IsDigit(input[j]) && input[j] != 46
    ensures i <= |input| && ReadFraction(input, i) == Some(i + |FractionChars(n.fraction)|)
    ensures n.fraction.Some? ==> i < |input| && !IsDigit(input[i])
  {
    if n.fraction.Some? {
      AtConcat(input, i, [46], n.fraction.value);
      SkipComplete(input, i + 1, n.fraction.value);
    }
  }

  lemma IntegerComplete(input: bytes, i: nat, t: bytes)
    requires IntegerOk(t) && At(input, i, t)
    requires i + |t| < |input| ==> !IsDigit(input[i + |t|])
    ensures i <= |input| && ReadInteger(input, i) == Some(i + |t|)
    ensures i < |input| && IsDigit(input[i])
  {
    AtFirst(input, i, t);
    SkipComplete(input, i, t);
  }

  /** Every number of the grammar is read to its end when nothing behind it could continue it. */
  lemma NumberComplete(input: bytes, i: nat, n: Number)
    requires NumberOk(n) && At(input, i, NumberChars(n)) && Stops(input, i + |NumberChars(n)|)
    ensures i < |input| && (input[i] == 45 || IsDigit(input[i]))
    ensures ReadNumber(input, i).Some?
    ensures ReadNumber(input, i).value.1 == i + |NumberChars(n)|
    ensures (ReadNumber(input, i).value.0 != ReadNumber(input, i).value.1) == IsFloat(n)
  {
    hide At, AreDigits, ReadInteger, ReadFraction, ReadExponent, NumberChars, IntegerOk, FractionOk, ExponentOk,
         FractionChars, ExponentChars;
    NumberAt(input, i, n);
    FloatLength(n);
    var start := i + |SignChars(n.negative)|;
    var whole := start + |n.integer|;
    if n.negative {
      AtFirst(input, i, [45]);
    }
    ExponentComplete(input, whole + |FractionChars(n.fraction)|, n);
    FractionComplete(input, whole, n);
    IntegerComplete(input, start, n.integer);
  }

  // ---------- the printer's integers ----------

  lemma {:induction false} DecimalRight(v: nat)
    ensures AreDigits(Decimal(v)) && DigitsValue(Decimal(v)) == v
    ensures |Decimal(v)| > 1 ==> Decimal(v)[0] != 48
    ensures v > 0 ==> Decimal(v)[0] != 48 && IsDigit(Decimal(v)[0])
  {
    if v >= 10 {
      DecimalRight(v / 10);
      var t := Decimal(v);
      assert t[..|t| - 1] == Decimal(v / 10);
    } else {
      assert DigitsValue([48 + v]) == DigitsValue([48 + v][..0]) * 10 + v;
    }
  }

  function SpellInteger(i: int): Number {
    Number(i < 0, Decimal(if i < 0 then -i else i), None, NoExponent)
  }

  /** Printed integers are numbers of the grammar and convert back to the same integer, signed if it fits. */
  lemma SpellIntegerRight(fp: FloatReader, i: int)
    requires INT64_MIN <= i <= UINT64_MAX
    ensures var n := SpellInteger(i);
            NumberOk(n) && NumberChars(n) == IntegerText(i) && !IsFloat(n)
    ensures Convert(fp, IntegerText(i), false) == Some(if i <= INT64_MAX then JInt(i) else JUInt(i))
  {
    hide AreDigits, Decimal;
    var n := SpellInteger(i);
    var digits := Decimal(if i < 0 then -i else i);
    DecimalRight(if i < 0 then -i else i);
    FirstDigit(digits);
    assert NumberChars(n) == IntegerText(i);
    if i < 0 {
      assert IntegerText(i)[1..] == digits;
    }
  }

  lemma FirstDigit(t: bytes)
    requires AreDigits(t) && t != []
    ensures IsDigit(t[0])
  {
  }

  /** Digits without a leading zero are the decimal text of their value. */
  lemma {:induction false} DecimalUnique(t: bytes)
    requires IntegerOk(t)
    ensures DigitsValue(t) >= 0 && Decimal(DigitsValue(t)) == t
    ensures t[0] != 48 ==> DigitsValue(t) > 0
    decreases |t|
  {
    var front, last := t[..|t| - 1], t[|t| - 1];
    if |t| == 1 {
      assert DigitsValue(front) == 0;
    } else {
      assert IsDigit(front[0]) && front[0] != 48;
      DecimalUnique(front);
      assert front + [last] == t;
    }
  }

  /** Among the numbers without fraction and exponent the printed text is the only one for its integer, but for `-0`. */
  lemma IntegerTextUnique(n: Number)
    requires NumberOk(n) && !IsFloat(n)
    ensures NumberChars(n) == IntegerText(SignedValue(n)) || (SignedValue(n) == 0 && NumberChars(n) == [45, 48])
  {
    hide DigitsValue, PlaceValue, Decimal, AreDigits;
    DigitsPlaces(n.integer);
    DecimalUnique(n.integer);
    IntegerChars(n);
    if n.negative && SignedValue(n) == 0 {
      assert n.integer == [48] by {
        DecimalZero();
      }
    }
  }

  lemma DecimalZero()
    ensures Decimal(0) == [48]
  {
  }

  // ---------- texts of doubles ----------

  /** A text that is a number of the grammar; what std::to_chars writes for a finite double is one. */
  ghost predicate IsNumberText(t: bytes) {
    exists n :: NumberOk(n) && NumberChars(n) == t
  }

  ghost function NumberOf(t: bytes): (n: Number)
    requires IsNumberText(t)
    ensures NumberOk(n) && NumberChars(n) == t
  {
    var n :| NumberOk(n) && NumberChars(n) == t;
    n
  }

  /** A decimal point or an exponent. */
  predicate HasMark(t: bytes) {
    46 in t || 101 in t || 69 in t
  }

  /** Whether a number is read as a double shows in its text. */
  lemma MarkRight(n: Number)
    requires NumberOk(n)
    ensures IsFloat(n) == HasMark(NumberChars(n))
  {
    var s, f, e := SignChars(n.negative), FractionChars(n.fraction), ExponentChars(n.exponent);
    assert forall b :: b in NumberChars(n) <==> b in s || b in n.integer || b in f || b in e;
    if n.fraction.Some? {
      assert f[0] == 46;
    }
    if n.exponent.Exponent? {
      assert e[0] == n.exponent.mark;
    }
  }

  /** Minus zero is printed with a sign, marked as a double, and without any digit but zero. */
  lemma NegativeZeroText()
    ensures var t := NEGATIVE_ZERO_TEXT;
            HasMark(t) && t[0] == 45 && forall k :: 0 < k < |t| ==> t[k] == 48 || t[k] == 46
  {
    assert NEGATIVE_ZERO_TEXT[2] == 46;
  }

  lemma NegativeZeroRight()
    ensures IsNumberText(NEGATIVE_ZERO_TEXT)
  {
    var n := Number(true, [48], Some([48]), NoExponent);
    assert NumberOk(n) && NumberChars(n) == NEGATIVE_ZERO_TEXT;
  }
}

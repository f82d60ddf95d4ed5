/** JSON strings: section 7 of RFC 8259 with surrogates paired as a grammar, and the parser's way of reading it. */
module Strings {
  import opened Base
  import opened Text
  import Utf8

  // ---------- the grammar ----------

  /** One `char` of the grammar; a surrogate pair is a single unit. */
  datatype Unit =
    | Plain(c: bytes)
    | Short(letter: byte)
    | Hex(h: bytes)
    | Pair(high: bytes, low: bytes)

  function HexValue(b: byte): int {
    if 48 <= b <= 57 then b - 48
    else if 97 <= b <= 102 then b - 87
    else if 65 <= b <= 70 then b - 55
    else -1
  }

  predicate IsHex4(h: bytes) {
    |h| == 4 && HexValue(h[0]) >= 0 && HexValue(h[1]) >= 0 && HexValue(h[2]) >= 0 && HexValue(h[3]) >= 0
  }

  function Hex4(h: bytes): (v: nat)
    requires IsHex4(h)
    ensures v <= 0xFFFF
  {
    HexValue(h[0]) * 4096 + HexValue(h[1]) * 256 + HexValue(h[2]) * 16 + HexValue(h[3])
  }

  predicate IsHigh(v: int) { 0xD800 <= v <= 0xDBFF }

  predicate IsLow(v: int) { 0xDC00 <= v <= 0xDFFF }

  /** The byte a two-character escape stands for. */
  function ShortValue(letter: byte): Option<byte> {
    if letter == QUOTE || letter == BACKSLASH || letter == 47 then Some(letter)
    else if letter == 98 then Some(8)
    else if letter == 102 then Some(12)
    else if letter == 110 then Some(10)
    else if letter == 114 then Some(13)
    else if letter == 116 then Some(9)
    else None
  }

  function PairValue(high: nat, low: nat): nat
    requires IsHigh(high) && IsLow(low)
  {
    0x10000 + (high - 0xD800) * 1024 + (low - 0xDC00)
  }

  predicate UnitOk(u: Unit) {
    match u
    case Plain(c) => Utf8.IsChar(c) && c[0] >= 0x20 && c[0] != QUOTE && c[0] != BACKSLASH
    case Short(letter) => ShortValue(letter).Some?
    case Hex(h) => IsHex4(h) && !IsHigh(Hex4(h)) && !IsLow(Hex4(h))
    case Pair(high, low) => IsHex4(high) && IsHex4(low) && IsHigh(Hex4(high)) && IsLow(Hex4(low))
  }

  function UnitText(u: Unit): bytes {
    match u
    case Plain(c) => c
    case Short(letter) => [BACKSLASH, letter]
    case Hex(h) => [BACKSLASH, 117] + h
    case Pair(high, low) => [BACKSLASH, 117] + high + ([BACKSLASH, 117] + low)
  }

  /** The character a unit denotes, in UTF-8. */
  function UnitValue(u: Unit): bytes
    requires UnitOk(u)
  {
    match u
    case Plain(c) => c
    case Short(letter) => [ShortValue(letter).value]
    case Hex(h) => Utf8.Encode(Hex4(h))
    case Pair(high, low) => Utf8.Encode(PairValue(Hex4(high), Hex4(low)))
  }

  predicate UnitsOk(us: seq<Unit>) {
    forall u | u in us :: UnitOk(u)
  }

  function UnitsText(us: seq<Unit>): bytes {
    if us == [] then [] else UnitText(us[0]) + UnitsText(us[1..])
  }

  function UnitsValue(us: seq<Unit>): bytes
    requires UnitsOk(us)
  {
    if us == [] then [] else UnitValue(us[0]) + UnitsValue(us[1..])
  }

  /** A unit denotes one well-formed character. */
  lemma UnitValueIsChar(u: Unit)
    requires UnitOk(u)
    ensures Utf8.IsChar(UnitValue(u))
  {
    match u
    case Hex(h) => Utf8.EncodeIsChar(Hex4(h));
    case Pair(high, low) => Utf8.EncodeIsChar(PairValue(Hex4(high), Hex4(low)));
    case _ =>
  }

  lemma {:induction false} UnitsValueValid(us: seq<Unit>)
    requires UnitsOk(us)
    ensures Utf8.Valid(UnitsValue(us))
  {
    if us != [] {
      UnitValueIsChar(us[0]);
      UnitsValueValid(us[1..]);
      Utf8.ValidPrepend(UnitValue(us[0]), UnitsValue(us[1..]));
    }
  }

  // ---------- which character a spelling stands for ----------

  /** `b` is the hexadecimal digit for `n`, in either case. */
  predicate IsHexDigit(b: byte, n: int) {
    (0 <= n < 10 && b == 48 + n) || (10 <= n < 16 && (b == 97 + (n - 10) || b == 65 + (n - 10)))
  }

  /** `h` spells `v` in four hexadecimal digits. */
  predicate SpellsHex(h: bytes, v: int) {
    && |h| == 4 && 0 <= v <= 0xFFFF
    && IsHexDigit(h[0], v / 4096) && IsHexDigit(h[1], v / 256 % 16) && IsHexDigit(h[2], v / 16 % 16)
    && IsHexDigit(h[3], v % 16)
  }

  /** The two-character escapes of section 7 of RFC 8259: letter and character. */
  const SHORT_ESCAPES: set<(byte, int)> :=
    {(0x22, 0x22), (0x5C, 0x5C), (0x2F, 0x2F), (0x62, 0x8), (0x66, 0xC), (0x6E, 0xA), (0x72, 0xD), (0x74, 0x9)}

  /**
   * The ways to write the character `cp` inside a string: as itself, if it may stand there; as a letter behind a
   * backslash; as four hexadecimal digits; or, beyond those, as the surrogate pair of section 2.1 of RFC 2781.
   */
  predicate Spelling(t: bytes, cp: int) {
    && Utf8.IsScalar(cp)
    && (|| (t == Utf8.Encode(cp) && cp >= 0x20 && cp != 0x22 && cp != 0x5C)
        || (|t| == 2 && t[0] == 0x5C && (t[1], cp) in SHORT_ESCAPES)
        || (|t| == 6 && t[..2] == [0x5C, 0x75] && SpellsHex(t[2..], cp))
        || (|t| == 12 && cp >= 0x10000 && t[..2] == t[6..8] == [0x5C, 0x75]
            && SpellsHex(t[2..6], 0xD800 + (cp - 0x10000) / 1024)
            && SpellsHex(t[8..], 0xDC00 + (cp - 0x10000) % 1024)))
  }

  lemma DigitSpells(b: byte, n: int)
    ensures IsHexDigit(b, n) <==> HexValue(b) == n >= 0
    ensures HexValue(b) < 16
  {
  }

  /** Four digits of base 16 are those of the number they make up. */
  lemma Nibbles(v: int, a: int, b: int, c: int, d: int)
    requires 0 <= a < 16 && 0 <= b < 16 && 0 <= c < 16 && 0 <= d < 16 && v == a * 4096 + b * 256 + c * 16 + d
    ensures 0 <= v <= 0xFFFF && a == v / 4096 && b == v / 256 % 16 && c == v / 16 % 16 && d == v % 16
  {
    assert v / 256 == a * 16 + b;
    assert v / 16 == a * 256 + b * 16 + c;
  }

  /** The number four digits make up is the only one they spell. */
  lemma HexSpells(h: bytes)
    requires IsHex4(h)
    ensures |h| == 4 && SpellsHex(h, Hex4(h))
  {
    hide IsHexDigit, HexValue;
    var v := Hex4(h);
    DigitSpells(h[0], v / 4096);
    DigitSpells(h[1], v / 256 % 16);
    DigitSpells(h[2], v / 16 % 16);
    DigitSpells(h[3], v % 16);
    Nibbles(v, HexValue(h[0]), HexValue(h[1]), HexValue(h[2]), HexValue(h[3]));
  }

  lemma SpelledHex(h: bytes, v: int)
    requires SpellsHex(h, v)
    ensures IsHex4(h) && Hex4(h) == v
  {
    hide IsHexDigit, HexValue;
    DigitSpells(h[0], v / 4096);
    DigitSpells(h[1], v / 256 % 16);
    DigitSpells(h[2], v / 16 % 16);
    DigitSpells(h[3], v % 16);
    NibblesAdd(v);
  }

  lemma NibblesAdd(v: int)
    requires 0 <= v <= 0xFFFF
    ensures v == v / 4096 * 4096 + v / 256 % 16 * 256 + v / 16 % 16 * 16 + v % 16 && v / 4096 < 16
  {
    assert v / 256 == v / 4096 * 16 + v / 256 % 16;
    assert v / 16 == v / 256 * 16 + v / 16 % 16;
  }

  /** Every unit of the grammar is a way to write the character it denotes. */
  lemma UnitSpells(u: Unit) returns (cp: int)
    requires UnitOk(u)
    ensures Spelling(UnitText(u), cp) && UnitValue(u) == Utf8.Encode(cp)
  {
    hide IsHex4, Hex4, SpellsHex, Utf8.Encode, Utf8.IsChar;
    match u
    case Plain(c) =>
      cp := Utf8.ScalarOf(c);
      Utf8.CharIsEncoding(c);
      PlainScalar(c);
    case Short(letter) =>
      cp := ShortValue(letter).value;
      EncodeAscii(cp);
      assert (letter, cp) in SHORT_ESCAPES;
    case Hex(h) =>
      cp := Hex4(h);
      HexSpells(h);
      assert UnitText(u)[..2] == [BACKSLASH, 117] && UnitText(u)[2..] == h;
    case Pair(high, low) =>
      cp := PairValue(Hex4(high), Hex4(low));
      PairSpells(high, low);
  }

  lemma PairSpells(high: bytes, low: bytes)
    requires UnitOk(Pair(high, low))
    ensures Spelling(UnitText(Pair(high, low)), PairValue(Hex4(high), Hex4(low)))
  {
    hide IsHex4, Hex4, SpellsHex, Utf8.Encode;
    var t := UnitText(Pair(high, low));
    HexSpells(high);
    HexSpells(low);
    PairParts(Hex4(high), Hex4(low));
    assert t[..2] == [BACKSLASH, 117] && t[2..6] == high && t[6..8] == [BACKSLASH, 117] && t[8..] == low;
  }

  lemma PairParts(high: nat, low: nat)
    requires IsHigh(high) && IsLow(low)
    ensures var cp := PairValue(high, low);
            && 0x10000 <= cp <= 0x10FFFF && high == 0xD800 + (cp - 0x10000) / 1024
            && low == 0xDC00 + (cp - 0x10000) % 1024
  {
  }

  lemma EncodeAscii(cp: nat)
    requires cp <= 0x7F
    ensures Utf8.Encode(cp) == [cp]
  {
  }

  /** Longer characters stand for more than ASCII. */
  lemma PlainScalar(c: bytes)
    requires Utf8.IsChar(c)
    ensures Utf8.IsScalar(Utf8.ScalarOf(c)) && (if |c| == 1 then Utf8.ScalarOf(c) == c[0] else Utf8.ScalarOf(c) >= 0x80)
  {
  }

  /** And every way to write a character is a unit that denotes it. */
  lemma SpellingUnit(t: bytes, cp: int) returns (u: Unit)
    requires Spelling(t, cp)
    ensures UnitOk(u) && UnitText(u) == t && UnitValue(u) == Utf8.Encode(cp)
  {
    hide IsHex4, Hex4, SpellsHex, Utf8.IsChar;
    if |t| == 2 && t[0] == 0x5C && (t[1], cp) in SHORT_ESCAPES {
      u := Short(t[1]);
    } else if |t| == 6 && t[..2] == [0x5C, 0x75] && SpellsHex(t[2..], cp) {
      u := Hex(t[2..]);
      SpelledHex(u.h, cp);
    } else if t == Utf8.Encode(cp) {
      u := Plain(t);
      Utf8.EncodeIsChar(cp);
    } else {
      u := Pair(t[2..6], t[8..]);
      SpelledPair(u.high, u.low, cp);
      PairText(t);
    }
  }

  lemma SpelledPair(high: bytes, low: bytes, cp: int)
    requires 0x10000 <= cp <= 0x10FFFF
    requires SpellsHex(high, 0xD800 + (cp - 0x10000) / 1024) && SpellsHex(low, 0xDC00 + (cp - 0x10000) % 1024)
    ensures UnitOk(Pair(high, low)) && PairValue(Hex4(high), Hex4(low)) == cp
  {
    hide IsHex4, Hex4, SpellsHex;
    SpelledHex(high, 0xD800 + (cp - 0x10000) / 1024);
    SpelledHex(low, 0xDC00 + (cp - 0x10000) % 1024);
  }

  lemma PairText(t: bytes)
    requires |t| == 12
    ensures t == t[..2] + t[2..6] + (t[6..8] + t[8..])
  {
  }

  // ---------- the reader ----------

  function ReadHex(input: bytes, i: nat): (r: Option<nat>)
    ensures r.Some? <==> i + 4 <= |input| && IsHex4(input[i..i + 4])
    ensures r.Some? ==> r.value == Hex4(input[i..i + 4])
  {
    if i + 4 <= |input| && IsHex4(input[i..i + 4]) then Some(Hex4(input[i..i + 4])) else None
  }

  /** The `\u` escapes; `i` is just behind the first `u`. */
  function ReadUnicode(input: bytes, i: nat): (r: Option<(bytes, nat)>)
    ensures r.Some? ==> i < r.value.1 <= |input|
  {
    var unit :- ReadHex(input, i);
    if IsHigh(unit) then
      if i + 10 <= |input| && input[i + 4] == BACKSLASH && input[i + 5] == 117 then
        var low :- ReadHex(input, i + 6);
        if IsLow(low) then Some((Utf8.Encode(PairValue(unit, low)), i + 10)) else None
      else None
    else if IsLow(unit) then None
    else Some((Utf8.Encode(unit), i + 4))
  }

  /** The character denoted at position `i`, and where the next one starts. */
  function ReadUnit(input: bytes, i: nat): (r: Option<(bytes, nat)>)
    requires i < |input|
    ensures r.Some? ==> i < r.value.1 <= |input|
  {
    var b := input[i];
    if b < 0x20 || b == QUOTE then None
    else if b == BACKSLASH then
      if i + 1 == |input| then None
      else if input[i + 1] == 117 then ReadUnicode(input, i + 2)
      else
        var v :- ShortValue(input[i + 1]);
        Some(([v], i + 2))
    else
      var n := Utf8.CharLength(input[i..]);
      if n == 0 then None else Some((input[i..i + n], i + n))
  }

  /** What stands between position `i` and the closing quote, decoded, and the position behind that quote. */
  function ReadString(input: bytes, i: nat): (r: Option<(bytes, nat)>)
    requires i <= |input|
    ensures r.Some? ==> i < r.value.1 <= |input|
    decreases |input| - i
  {
    if i == |input| then None
    else if input[i] == QUOTE then Some(([], i + 1))
    else
      var unit :- ReadUnit(input, i);
      var rest :- ReadString(input, unit.1);
      Some((unit.0 + rest.0, rest.1))
  }

  // ---------- reader and grammar agree ----------

  lemma HexSound(input: bytes, i: nat, h: bytes)
    requires i + 2 <= |input| && input[i] == BACKSLASH && input[i + 1] == 117 && At(input, i + 2, h)
    ensures At(input, i, [BACKSLASH, 117] + h)
  {
    AtConcat(input, i, [BACKSLASH, 117], h);
  }

  lemma UnicodeSound(input: bytes, i: nat) returns (u: Unit)
    requires 2 <= i && ReadUnicode(input, i).Some? && input[i - 2] == BACKSLASH && input[i - 1] == 117
    ensures UnitOk(u) && At(input, i - 2, UnitText(u))
    ensures ReadUnicode(input, i).value.0 == UnitValue(u)
    ensures ReadUnicode(input, i).value.1 == i - 2 + |UnitText(u)|
  {
    hide At, HexValue, Utf8.Encode, Hex4;
    var h := input[i..i + 4];
    AtIsSlice(input, i, h);
    HexSound(input, i - 2, h);
    u := Hex(h);
    if IsHigh(Hex4(h)) {
      var l := input[i + 6..i + 10];
      AtIsSlice(input, i + 6, l);
      HexSound(input, i + 4, l);
      AtConcat(input, i - 2, [BACKSLASH, 117] + h, [BACKSLASH, 117] + l);
      u := Pair(h, l);
    }
  }

  lemma UnitSound(input: bytes, i: nat) returns (u: Unit)
    requires i < |input| && ReadUnit(input, i).Some?
    ensures UnitOk(u) && At(input, i, UnitText(u))
    ensures ReadUnit(input, i).value.0 == UnitValue(u)
    ensures ReadUnit(input, i).value.1 == i + |UnitText(u)|
  {
    hide ReadUnicode, IsHex4, Hex4;
    if input[i] == BACKSLASH {
      if input[i + 1] == 117 {
        u := UnicodeSound(input, i + 2);
      } else {
        u := Short(input[i + 1]);
        AtIsSlice(input, i, UnitText(u));
      }
    } else {
      var n := Utf8.CharLength(input[i..]);
      assert input[i..][..n] == input[i..i + n];
      u := Plain(input[i..i + n]);
      AtIsSlice(input, i, u.c);
    }
  }

  lemma PlainComplete(input: bytes, i: nat, c: bytes)
    requires Utf8.IsChar(c) && At(input, i, c)
    ensures 0 < |c| && i + |c| <= |input| && Utf8.CharLength(input[i..]) == |c| && input[i..i + |c|] == c
    ensures input[i] == c[0]
  {
    var rest := input[i + |c|..];
    AtIsSlice(input, i, c);
    assert input[i..] == c + rest;
    Utf8.CharIsPrefix(c, rest);
    assert input[i + 0] == c[0];
  }

  lemma HexComplete(input: bytes, i: nat, h: bytes)
    requires |h| == 4 && At(input, i, [BACKSLASH, 117] + h)
    ensures i + 6 <= |input| && input[i] == BACKSLASH && input[i + 1] == 117 && input[i + 2..i + 6] == h
  {
    AtConcat(input, i, [BACKSLASH, 117], h);
    AtIsSlice(input, i + 2, h);
    assert input[i + 0] == [BACKSLASH, 117][0] && input[i + 1] == [BACKSLASH, 117][1];
  }

  lemma UnitComplete(input: bytes, i: nat, u: Unit)
    requires UnitOk(u) && At(input, i, UnitText(u))
    ensures i < |input| && input[i] != QUOTE
    ensures ReadUnit(input, i).Some?
    ensures ReadUnit(input, i).value.0 == UnitValue(u)
    ensures ReadUnit(input, i).value.1 == i + |UnitText(u)|
  {
    hide At, HexValue, Hex4, Utf8.Encode, Utf8.IsChar, Utf8.CharLength;
    match u
    case Plain(c) =>
      PlainComplete(input, i, c);
    case Short(letter) =>
      AtIsSlice(input, i, UnitText(u));
      assert input[i..i + 2][0] == BACKSLASH && input[i..i + 2][1] == letter;
    case Hex(h) =>
      HexComplete(input, i, h);
    case Pair(high, low) =>
      AtConcat(input, i, [BACKSLASH, 117] + high, [BACKSLASH, 117] + low);
      HexComplete(input, i, high);
      HexComplete(input, i + 6, low);
  }

  /** One unfolding of the reader. */
  lemma StringStep(input: bytes, i: nat)
    requires i < |input| && input[i] != QUOTE && ReadUnit(input, i).Some?
    ensures var next := ReadUnit(input, i).value.1;
            && ReadString(input, i).Some? == ReadString(input, next).Some?
            && (ReadString(input, i).Some? ==>
                  && ReadString(input, i).value.0 == ReadUnit(input, i).value.0 + ReadString(input, next).value.0
                  && ReadString(input, i).value.1 == ReadString(input, next).value.1)
  {
  }

  /** Wherever it stands in a string, a character is read from any of its spellings. */
  lemma SpellingRead(input: bytes, i: nat, t: bytes, cp: int)
    requires Spelling(t, cp) && At(input, i, t)
    ensures i < |input| && i + |t| <= |input| && ReadString(input, i).Some? == ReadString(input, i + |t|).Some?
    ensures ReadString(input, i).Some? ==>
      && ReadString(input, i).value.0 == Utf8.Encode(cp) + ReadString(input, i + |t|).value.0
      && ReadString(input, i).value.1 == ReadString(input, i + |t|).value.1
  {
    hide At, Spelling, UnitOk, UnitText, UnitValue, ReadUnit, ReadString, Utf8.Encode;
    var u := SpellingUnit(t, cp);
    UnitComplete(input, i, u);
    StringStep(input, i);
  }

  /** Whatever the reader accepts is a string of the grammar, up to its closing quote. */
  lemma {:induction false} StringSound(input: bytes, i: nat) returns (us: seq<Unit>)
    requires i <= |input| && ReadString(input, i).Some?
    ensures UnitsOk(us) && At(input, i, UnitsText(us))
    ensures ReadString(input, i).value.0 == UnitsValue(us)
    ensures ReadString(input, i).value.1 == i + |UnitsText(us)| + 1
    ensures input[ReadString(input, i).value.1 - 1] == QUOTE
    decreases |input| - i
  {
    hide ReadUnit, UnitText, UnitValue, UnitOk;
    if input[i] == QUOTE {
      us := [];
    } else {
      var u := UnitSound(input, i);
      var next := ReadUnit(input, i).value.1;
      var rest := StringSound(input, next);
      us := [u] + rest;
      assert us[1..] == rest;
      AtConcat(input, i, UnitText(u), UnitsText(rest));
      StringStep(input, i);
    }
  }

  /** Every string of the grammar is read, to its closing quote. */
  lemma {:induction false} StringComplete(input: bytes, i: nat, us: seq<Unit>)
    requires UnitsOk(us) && At(input, i, UnitsText(us))
    requires i + |UnitsText(us)| < |input| && input[i + |UnitsText(us)|] == QUOTE
    ensures ReadString(input, i).Some?
    ensures ReadString(input, i).value.0 == UnitsValue(us)
    ensures ReadString(input, i).value.1 == i + |UnitsText(us)| + 1
    decreases |us|
  {
    hide ReadUnit, UnitText, UnitValue, UnitOk;
    if us != [] {
      var u, rest := us[0], us[1..];
      var a, b := UnitText(u), UnitsText(rest);
      assert UnitsText(us) == a + b;
      AtConcat(input, i, a, b);
      UnitComplete(input, i, u);
      StringComplete(input, ReadUnit(input, i).value.1, rest);
      StringStep(input, i);
    }
  }

  /** Decoded strings are UTF-8. */
  lemma ReadStringValid(input: bytes, i: nat)
    requires i <= |input| && ReadString(input, i).Some?
    ensures Utf8.Valid(ReadString(input, i).value.0)
  {
    var us := StringSound(input, i);
    UnitsValueValid(us);
  }

  // ---------- the printer's strings ----------

  /** The units the escaping printer spells a string with. */
  function SpellUnit(c: bytes): Unit
    requires Utf8.IsChar(c)
  {
    if c[0] == QUOTE || c[0] == BACKSLASH then Short(c[0])
    else if c[0] == 8 then Short(98)
    else if c[0] == 12 then Short(102)
    else if c[0] == 10 then Short(110)
    else if c[0] == 13 then Short(114)
    else if c[0] == 9 then Short(116)
    else if c[0] < 0x20 then Hex([48, 48, HexDigit(c[0] / 16), HexDigit(c[0] % 16)])
    else Plain(c)
  }

  function Spell(s: bytes): seq<Unit>
    requires Utf8.Valid(s)
  {
    if s == [] then []
    else
      var n := Utf8.CharLength(s);
      [SpellUnit(s[..n])] + Spell(s[n..])
  }

  lemma EscapeOne(b: byte)
    ensures Escape([b]) == EscapeByte(b)
  {
    hide EscapeByte;
    assert [b][1..] == [];
    assert EscapeByte(b) + [] == EscapeByte(b);
  }

  lemma ControlHex(b: byte)
    requires b < 0x20
    ensures var h := [48, 48, HexDigit(b / 16), HexDigit(b % 16)];
            IsHex4(h) && Hex4(h) == b && Utf8.Encode(b) == [b]
  {
  }

  lemma SpellUnitRight(c: bytes)
    requires Utf8.IsChar(c)
    ensures UnitOk(SpellUnit(c)) && UnitText(SpellUnit(c)) == Escape(c) && UnitValue(SpellUnit(c)) == c
  {
    hide Escape, IsHex4, Hex4, Utf8.Encode;
    if c[0] < 0x80 {
      if c[0] < 0x20 {
        ControlHex(c[0]);
      }
      EscapeOne(c[0]);
      assert c == [c[0]];
    } else {
      assert forall b :: b in c ==> b >= 0x80;
      EscapeFixesPlain(c);
    }
  }

  /** Escaping is spelling, so reading an escaped string gives the string back. */
  lemma {:induction false} SpellRight(s: bytes)
    requires Utf8.Valid(s)
    ensures UnitsOk(Spell(s)) && UnitsText(Spell(s)) == Escape(s) && UnitsValue(Spell(s)) == s
    decreases |s|
  {
    if s != [] {
      var n := Utf8.CharLength(s);
      var c, rest := s[..n], s[n..];
      assert s == c + rest;
      SpellUnitRight(c);
      SpellRight(rest);
      EscapeConcat(c, rest);
      assert Spell(s)[1..] == Spell(rest);
    }
  }

  /** No spelling of the same string is shorter than the printed one. */
  lemma {:induction false} SpellShortest(us: seq<Unit>)
    requires UnitsOk(us)
    ensures |Escape(UnitsValue(us))| <= |UnitsText(us)|
  {
    hide UnitText, UnitValue, UnitOk, Escape;
    if us == [] {
      EscapeNothing();
    } else {
      UnitShortest(us[0]);
      SpellShortest(us[1..]);
      EscapeConcat(UnitValue(us[0]), UnitsValue(us[1..]));
    }
  }

  lemma EscapeNothing()
    ensures Escape([]) == []
  {
  }

  lemma UnitShortest(u: Unit)
    requires UnitOk(u)
    ensures |Escape(UnitValue(u))| <= |UnitText(u)|
  {
    hide Escape, Hex4, HexValue, Utf8.Encode;
    var c := UnitValue(u);
    UnitValueIsChar(u);
    if |c| == 1 {
      EscapeOne(c[0]);
      assert c == [c[0]];
    } else {
      assert forall b :: b in c ==> b >= 0x80;
      EscapeFixesPlain(c);
    }
  }

  /** The grammar's `string`: the units between quotation marks. */
  function QuotedUnits(us: seq<Unit>): bytes {
    [QUOTE] + UnitsText(us) + [QUOTE]
  }

  lemma QuotedAt(input: bytes, i: nat, us: seq<Unit>)
    ensures var e := i + 1 + |UnitsText(us)|;
            At(input, i, QuotedUnits(us)) <==>
            i < |input| && input[i] == QUOTE && At(input, i + 1, UnitsText(us)) && e < |input| && input[e] == QUOTE
  {
    hide At, UnitsText;
    var t := UnitsText(us);
    AtConcat(input, i, [QUOTE] + t, [QUOTE]);
    AtConcat(input, i, [QUOTE], t);
    AtByte(input, i, QUOTE);
    AtByte(input, i + 1 + |t|, QUOTE);
  }

  lemma QuotedSound(input: bytes, i: nat) returns (us: seq<Unit>)
    requires i < |input| && input[i] == QUOTE && ReadString(input, i + 1).Some?
    ensures UnitsOk(us) && At(input, i, QuotedUnits(us))
    ensures ReadString(input, i + 1).value.0 == UnitsValue(us)
    ensures ReadString(input, i + 1).value.1 == i + |QuotedUnits(us)|
  {
    hide UnitsText, UnitOk, ReadString;
    us := StringSound(input, i + 1);
    QuotedAt(input, i, us);
  }

  lemma QuotedComplete(input: bytes, i: nat, us: seq<Unit>)
    requires UnitsOk(us) && At(input, i, QuotedUnits(us))
    ensures i < |input| && input[i] == QUOTE && ReadString(input, i + 1).Some?
    ensures ReadString(input, i + 1).value.0 == UnitsValue(us)
    ensures ReadString(input, i + 1).value.1 == i + |QuotedUnits(us)|
  {
    hide UnitsText, UnitOk, ReadString;
    QuotedAt(input, i, us);
    StringComplete(input, i + 1, us);
  }

  /** The escape/unescape inverse: any valid string, quoted, is read back from its opening quote. */
  lemma QuotedReadsBack(input: bytes, i: nat, s: bytes)
    requires Utf8.Valid(s) && At(input, i, Quoted(s))
    ensures i < |input| && input[i] == QUOTE && ReadString(input, i + 1).Some?
    ensures ReadString(input, i + 1).value.0 == s && ReadString(input, i + 1).value.1 == i + |Quoted(s)|
  {
    SpellRight(s);
    QuotedComplete(input, i, Spell(s));
  }
}

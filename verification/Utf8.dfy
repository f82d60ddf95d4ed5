/** UTF-8: the validator of detail/utf8.hpp and the parser's encoder, against section 4 of RFC 3629. */
module Utf8 {
  import opened Base

  /** `UTF8-tail` of RFC 3629. */
  predicate IsTail(b: byte) {
    0x80 <= b <= 0xBF
  }

  /** `UTF8-char` of RFC 3629: the four productions with their restricted second bytes. */
  predicate IsChar(c: bytes) {
    || (|c| == 1 && c[0] <= 0x7F)
    || (|c| == 2 && 0xC2 <= c[0] <= 0xDF && IsTail(c[1]))
    || (|c| == 3 && IsTail(c[2]) &&
        (|| (c[0] == 0xE0 && 0xA0 <= c[1] <= 0xBF)
         || (0xE1 <= c[0] <= 0xEC && IsTail(c[1]))
         || (c[0] == 0xED && 0x80 <= c[1] <= 0x9F)
         || (0xEE <= c[0] <= 0xEF && IsTail(c[1]))))
    || (|c| == 4 && IsTail(c[2]) && IsTail(c[3]) &&
        (|| (c[0] == 0xF0 && 0x90 <= c[1] <= 0xBF)
         || (0xF1 <= c[0] <= 0xF3 && IsTail(c[1]))
         || (c[0] == 0xF4 && 0x80 <= c[1] <= 0x8F)))
  }

  function Concat(parts: seq<bytes>): bytes {
    if parts == [] then [] else parts[0] + Concat(parts[1..])
  }

  /** `UTF8-octets` of RFC 3629: some way to cut the bytes into characters exists. */
  ghost predicate IsOctets(s: bytes) {
    exists parts: seq<bytes> :: (forall i :: 0 <= i < |parts| ==> IsChar(parts[i])) && Concat(parts) == s
  }

  /** The length announced by a lead byte, 0 when no character starts with it. */
  function LeadLength(first: byte): nat {
    if first < 0x80 then 1
    else if 0xC2 <= first <= 0xDF then 2
    else if 0xE0 <= first <= 0xEF then 3
    else if 0xF0 <= first <= 0xF4 then 4
    else 0
  }

  /** The length of the character `s` starts with, 0 when it starts with none. */
  function CharLength(s: bytes): (n: nat)
    ensures n > 0 ==> n <= |s| && IsChar(s[..n])
  {
    if s == [] then 0
    else
      var n := LeadLength(s[0]);
      if 0 < n <= |s| && IsChar(s[..n]) then n else 0
  }

  /** Cutting characters off the front consumes everything. */
  predicate Valid(s: bytes) {
    s == [] || (CharLength(s) > 0 && Valid(s[CharLength(s)..]))
  }

  lemma CharIsPrefix(c: bytes, rest: bytes)
    requires IsChar(c)
    ensures CharLength(c + rest) == |c|
  {
    var s := c + rest;
    assert s[0] == c[0];
    assert s[..|c|] == c;
    assert LeadLength(s[0]) == |c|;
  }

  lemma {:induction false} ValidPrepend(c: bytes, rest: bytes)
    requires IsChar(c)
    ensures Valid(c + rest) == Valid(rest)
  {
    CharIsPrefix(c, rest);
    assert (c + rest)[|c|..] == rest;
  }

  lemma {:induction false} ValidConcat(a: bytes, b: bytes)
    requires Valid(a) && Valid(b)
    ensures Valid(a + b)
    decreases |a|
  {
    hide IsChar, CharLength;
    if a == [] {
      assert a + b == b;
    } else {
      var c, rest := a[..CharLength(a)], a[CharLength(a)..];
      assert Valid(rest) && IsChar(c) && |rest| < |a|;
      ValidConcat(rest, b);
      ValidPrepend(c, rest + b);
      assert a + b == c + (rest + b) by {
        assert a == c + rest;
      }
    }
  }

  /** The greedy cut finds a partition exactly when there is one. */
  lemma {:induction false} ValidIffOctets(s: bytes)
    ensures Valid(s) <==> IsOctets(s)
    decreases |s|
  {
    if Valid(s) {
      var parts := Cut(s);
    }
    if IsOctets(s) {
      var parts: seq<bytes> :| (forall i :: 0 <= i < |parts| ==> IsChar(parts[i])) && Concat(parts) == s;
      ConcatValid(parts);
    }
  }

  lemma {:induction false} Cut(s: bytes) returns (parts: seq<bytes>)
    requires Valid(s)
    ensures (forall i :: 0 <= i < |parts| ==> IsChar(parts[i])) && Concat(parts) == s
    decreases |s|
  {
    if s == [] {
      parts := [];
    } else {
      var n := CharLength(s);
      var rest := Cut(s[n..]);
      parts := [s[..n]] + rest;
      assert parts[1..] == rest;
      assert s[..n] + s[n..] == s;
    }
  }

  lemma {:induction false} ConcatValid(parts: seq<bytes>)
    requires forall i :: 0 <= i < |parts| ==> IsChar(parts[i])
    ensures Valid(Concat(parts))
  {
    if parts != [] {
      ConcatValid(parts[1..]);
      ValidPrepend(parts[0], Concat(parts[1..]));
    }
  }

  // ---------- the encoder ----------

  /** A Unicode scalar value. */
  predicate IsScalar(cp: int) {
    0 <= cp <= 0x10FFFF && !(0xD800 <= cp <= 0xDFFF)
  }

  function EncodedLength(cp: nat): nat {
    if cp <= 0x7F then 1 else if cp <= 0x7FF then 2 else if cp <= 0xFFFF then 3 else 4
  }

  /** `x >> 6`, `x & 0x3f` and the marker bits of encode_utf8, as arithmetic. */
  function Encode(cp: nat): (c: bytes)
    requires cp <= 0x10FFFF
    ensures |c| == EncodedLength(cp)
  {
    if cp <= 0x7F then [cp]
    else if cp <= 0x7FF then [0xC0 + cp / 64, 0x80 + cp % 64]
    else if cp <= 0xFFFF then [0xE0 + cp / 4096, 0x80 + (cp / 64) % 64, 0x80 + cp % 64]
    else [0xF0 + cp / 262144, 0x80 + (cp / 4096) % 64, 0x80 + (cp / 64) % 64, 0x80 + cp % 64]
  }

  /** A byte without its marker bits. */
  function Bits(b: int, marker: int): int {
    b - marker
  }

  /** The number a character stands for: the payload bits of its bytes, in order. */
  function ScalarOf(c: bytes): int
    requires IsChar(c)
  {
    if |c| == 1 then c[0]
    else if |c| == 2 then Bits(c[0], 0xC0) * 64 + Bits(c[1], 0x80)
    else if |c| == 3 then Bits(c[0], 0xE0) * 4096 + Bits(c[1], 0x80) * 64 + Bits(c[2], 0x80)
    else Bits(c[0], 0xF0) * 262144 + Bits(c[1], 0x80) * 4096 + Bits(c[2], 0x80) * 64 + Bits(c[3], 0x80)
  }

  lemma DivMod(q: int, r: int)
    requires 0 <= r < 64
    ensures (q * 64 + r) / 64 == q && (q * 64 + r) % 64 == r
  {
  }

  /** Scalars encode to characters of the RFC, and decode back. */
  lemma EncodeIsChar(cp: nat)
    requires IsScalar(cp)
    ensures IsChar(Encode(cp)) && ScalarOf(Encode(cp)) == cp
  {
    assert cp / 4096 == (cp / 64) / 64;
    assert cp / 262144 == (cp / 4096) / 64;
  }

  lemma TwoIsEncoding(c: bytes)
    requires IsChar(c) && |c| == 2
    ensures IsScalar(ScalarOf(c)) && Encode(ScalarOf(c)) == c
  {
    DivMod(Bits(c[0], 0xC0), Bits(c[1], 0x80));
  }

  lemma ThreeIsEncoding(c: bytes)
    requires IsChar(c) && |c| == 3
    ensures IsScalar(ScalarOf(c)) && Encode(ScalarOf(c)) == c
  {
    var x, y, z := Bits(c[0], 0xE0), Bits(c[1], 0x80), Bits(c[2], 0x80);
    ThreeBytes(x, y, z);
    var cp := x * 4096 + y * 64 + z;
    assert cp == ScalarOf(c) && 0x800 <= cp <= 0xFFFF;
    assert Encode(cp) == [0xE0 + x, 0x80 + y, 0x80 + z];
  }

  lemma FourIsEncoding(c: bytes)
    requires IsChar(c) && |c| == 4
    ensures IsScalar(ScalarOf(c)) && Encode(ScalarOf(c)) == c
  {
    var w, x, y, z := Bits(c[0], 0xF0), Bits(c[1], 0x80), Bits(c[2], 0x80), Bits(c[3], 0x80);
    FourBytes(w, x, y, z);
    var cp := w * 262144 + x * 4096 + y * 64 + z;
    assert cp == ScalarOf(c) && 0x10000 <= cp <= 0x10FFFF;
    assert Encode(cp) == [0xF0 + w, 0x80 + x, 0x80 + y, 0x80 + z];
  }

  /** Every character of the RFC is the encoding of exactly one scalar. */
  lemma CharIsEncoding(c: bytes)
    requires IsChar(c)
    ensures IsScalar(ScalarOf(c)) && Encode(ScalarOf(c)) == c
  {
    match |c|
    case 2 => TwoIsEncoding(c);
    case 3 => ThreeIsEncoding(c);
    case 4 => FourIsEncoding(c);
    case _ =>
  }

  lemma FourBytes(a: nat, b: nat, c: nat, d: nat)
    requires b < 64 && c < 64 && d < 64
    ensures var cp := a * 262144 + b * 4096 + c * 64 + d;
            cp / 262144 == a && (cp / 4096) % 64 == b && (cp / 64) % 64 == c && cp % 64 == d
  {
    var cp := a * 262144 + b * 4096 + c * 64 + d;
    ThreeBytes(a * 64 + b, c, d);
    DivMod(a, b);
    assert cp == (a * 64 + b) * 4096 + c * 64 + d;
    assert cp / 262144 == (cp / 4096) / 64;
  }

  lemma ThreeBytes(a: nat, b: nat, c: nat)
    requires b < 64 && c < 64
    ensures var cp := a * 4096 + b * 64 + c;
            cp / 4096 == a && (cp / 64) % 64 == b && cp % 64 == c
  {
    var cp := a * 4096 + b * 64 + c;
    DivMod(a * 64 + b, c);
    DivMod(a, b);
    assert cp == (a * 64 + b) * 64 + c;
    assert cp / 4096 == (cp / 64) / 64;
  }

  /** unchecked_utf8_length: the parser's lead-byte table, used only after validation. */
  function UncheckedLength(first: byte): nat {
    if first < 0x80 then 1 else if first < 0xE0 then 2 else if first < 0xF0 then 3 else 4
  }

  lemma UncheckedLengthAgrees(s: bytes)
    requires CharLength(s) > 0
    ensures UncheckedLength(s[0]) == CharLength(s)
  {
  }

  // ---------- the validators ----------

  /** The first position from `k` to before `n` that cannot continue a character; 0 when there is none. */
  function FirstNonTail(s: bytes, k: nat, n: nat): (r: nat)
    requires 1 <= k && n <= |s|
    ensures r == 0 || (k <= r < n && !IsTail(s[r]))
    ensures forall i :: k <= i < n && (r == 0 || i < r) ==> IsTail(s[i])
    decreases n - k
  {
    if k >= n then 0 else if !IsTail(s[k]) then k else FirstNonTail(s, k + 1, n)
  }

  /** Which byte is blamed when no character starts `s`: the first bad continuation byte, or else the lead byte. */
  function Blamed(s: bytes): (r: nat)
    requires s != []
    ensures r < |s|
  {
    var n := LeadLength(s[0]);
    if n == 0 || n > |s| then 0 else FirstNonTail(s, 1, n)
  }

  /** utf8_sequence_length: accepts exactly when a character starts at `offset`. */
  method SequenceLength(value: bytes, offset: nat) returns (r: Result<nat>)
    ensures r.Ok? ==> offset < |value| && r.value > 0 && r.value == CharLength(From(value, offset))
    ensures r.Err? ==> offset >= |value| || CharLength(From(value, offset)) == 0
    ensures r.Err? ==> r.error == Error(InvalidUtf8,
      if offset >= |value| then offset else offset + Blamed(From(value, offset)))
  {
    if offset >= |value| {
      return Err(Error(InvalidUtf8, offset));
    }
    ghost var s := value[offset..];
    var first := value[offset];
    if first < 0x80 {
      assert s[..1] == [first];
      return Ok(1);
    }
    var length := 0;
    if 0xC2 <= first <= 0xDF {
      length := 2;
    } else if 0xE0 <= first <= 0xEF {
      length := 3;
    } else if 0xF0 <= first <= 0xF4 {
      length := 4;
    } else {
      return Err(Error(InvalidUtf8, offset));
    }
    if length > |value| - offset {
      return Err(Error(InvalidUtf8, offset));
    }
    for index := 1 to length
      invariant forall k :: 1 <= k < index ==> IsTail(s[k])
    {
      var continuation := value[offset + index];
      assert continuation == s[..length][index];
      if continuation < 0x80 || continuation > 0xBF {
        return Err(Error(InvalidUtf8, offset + index));
      }
    }
    var second := value[offset + 1];
    assert second == s[..length][1];
    if (first == 0xE0 && second < 0xA0)
       || (first == 0xED && second > 0x9F)
       || (first == 0xF0 && second < 0x90)
       || (first == 0xF4 && second > 0x8F)
    {
      return Err(Error(InvalidUtf8, offset));
    }
    assert IsTail(s[1]) && (length > 2 ==> IsTail(s[2])) && (length > 3 ==> IsTail(s[3]));
    return Ok(length);
  }

  /** What is left of `value` from position `i` on. */
  function From(value: bytes, i: nat): bytes
    requires i <= |value|
  {
    value[i..]
  }

  lemma FromStart(value: bytes)
    ensures From(value, 0) == value && From(value, |value|) == []
    ensures Valid(value[..0]) && Valid([])
  {
  }

  /** One step of the greedy cut, by position. */
  lemma CutStep(value: bytes, i: nat)
    requires i < |value|
    ensures var n := CharLength(From(value, i));
            if n == 0 then !Valid(From(value, i))
                else i + n <= |value| && Valid(From(value, i)) == Valid(From(value, i + n))
    ensures value[i] < 0x80 ==> CharLength(From(value, i)) == 1
  {
    hide IsChar;
    var s := value[i..];
    var n := CharLength(s);
    if n > 0 {
      assert s[n..] == value[i + n..];
    }
    if value[i] < 0x80 {
      AsciiChar(s);
    }
  }

  lemma AsciiChar(s: bytes)
    requires s != [] && s[0] < 0x80
    ensures CharLength(s) == 1
  {
    assert s[..1] == [s[0]];
  }

  /** A character more in front of position `i`. */
  lemma CutGrows(value: bytes, i: nat)
    requires i < |value| && Valid(value[..i]) && CharLength(From(value, i)) > 0
    ensures var n := CharLength(From(value, i));
            i + n <= |value| && Valid(value[..i + n])
  {
    hide IsChar;
    var n := CharLength(From(value, i));
    var c := value[i..][..n];
    CharIsValid(c);
    ValidConcat(value[..i], c);
    assert value[..i + n] == value[..i] + c;
  }

  lemma CharIsValid(c: bytes)
    requires IsChar(c)
    ensures Valid(c)
  {
    ValidPrepend(c, []);
    assert c + [] == c;
  }

  /** `i` is the first position at which the cut into characters fails. */
  ghost predicate FailsAt(value: bytes, i: nat) {
    i < |value| && Valid(value[..i]) && CharLength(From(value, i)) == 0
  }

  /**
   * invalid_utf8_offset: nothing exactly for the octet strings of RFC 3629; otherwise the byte to blame where the
   * cut fails.
   */
  method InvalidOffset(value: bytes) returns (r: Option<nat>)
    ensures r.None? <==> IsOctets(value)
    ensures r.None? <==> Valid(value)
    ensures r.Some? ==> r.value < |value|
    ensures r.Some? ==> exists i: nat :: FailsAt(value, i) && r.value == i + Blamed(From(value, i))
  {
    hide From, IsOctets, CharLength, Blamed, Valid;
    ValidIffOctets(value);
    FromStart(value);
    var offset := 0;
    while offset < |value|
      invariant offset <= |value|
      invariant Valid(value) == Valid(From(value, offset))
      invariant Valid(value[..offset])
    {
      CutStep(value, offset);
      if value[offset] < 0x80 {
        CutGrows(value, offset);
        offset := offset + 1;
      } else {
        var sequence := SequenceLength(value, offset);
        if sequence.Err? {
          assert FailsAt(value, offset);
          BlamedInside(value, offset);
          return Some(sequence.error.offset);
        }
        CutGrows(value, offset);
        offset := offset + sequence.value;
      }
    }
    return None;
  }

  lemma BlamedInside(value: bytes, i: nat)
    requires i < |value|
    ensures From(value, i) != [] && i + Blamed(From(value, i)) < |value|
  {
  }
}

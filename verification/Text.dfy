/** The recursive printer: what the serializer's output has to be, value by value. */
module Text {
  import opened Base
  import opened Json

  const QUOTE: byte := 34
  const BACKSLASH: byte := 92
  const COMMA: byte := 44
  const COLON: byte := 58
  const SPACE: byte := 32
  const NEWLINE: byte := 10

  const NULL_TEXT: bytes := [110, 117, 108, 108]
  const TRUE_TEXT: bytes := [116, 114, 117, 101]
  const FALSE_TEXT: bytes := [102, 97, 108, 115, 101]
  const NEGATIVE_ZERO_TEXT: bytes := [45, 48, 46, 48]

  // ---------- strings ----------

  /** Slab::string_flags: whether some byte must be escaped inside a JSON string. */
  predicate NeedsEscape(b: byte) {
    b == QUOTE || b == BACKSLASH || b < 0x20
  }

  function Flags(s: bytes): nat {
    if exists b :: b in s && NeedsEscape(b) then 1 else 0
  }

  function HexDigit(n: int): byte
    requires 0 <= n < 16
  {
    if n < 10 then 48 + n else 87 + n
  }

  function EscapeByte(b: byte): bytes {
    if b == QUOTE then [BACKSLASH, QUOTE]
    else if b == BACKSLASH then [BACKSLASH, BACKSLASH]
    else if b == 8 then [BACKSLASH, 98]
    else if b == 12 then [BACKSLASH, 102]
    else if b == 10 then [BACKSLASH, 110]
    else if b == 13 then [BACKSLASH, 114]
    else if b == 9 then [BACKSLASH, 116]
    else if b < 0x20 then [BACKSLASH, 117, 48, 48, HexDigit(b / 16), HexDigit(b % 16)]
    else [b]
  }

  function Escape(s: bytes): bytes {
    if s == [] then [] else EscapeByte(s[0]) + Escape(s[1..])
  }

  function Quoted(s: bytes): bytes {
    [QUOTE] + Escape(s) + [QUOTE]
  }

  lemma {:induction false} EscapeConcat(a: bytes, b: bytes)
    ensures Escape(a + b) == Escape(a) + Escape(b)
  {
    hide EscapeByte;
    if a == [] {
      assert a + b == b;
    } else {
      var first, rest := EscapeByte(a[0]), a[1..];
      EscapeConcat(rest, b);
      assert (a + b)[1..] == rest + b;
      Associate(first, Escape(rest), Escape(b));
    }
  }

  /** The flag-0 fast path: a string without special bytes is its own escaped form. */
  lemma {:induction false} EscapeFixesPlain(s: bytes)
    requires Flags(s) == 0
    ensures Escape(s) == s
  {
    if s != [] {
      assert s[0] in s && !NeedsEscape(s[0]);
      assert Flags(s[1..]) == 0 by {
        assert forall b :: b in s[1..] ==> b in s;
      }
      EscapeFixesPlain(s[1..]);
      assert [s[0]] + s[1..] == s;
    }
  }

  lemma EscapedByteGrows(b: byte)
    ensures |EscapeByte(b)| >= if NeedsEscape(b) then 2 else 1
  {
  }

  /** Escaping never shortens a string, and lengthens it if some byte must be escaped. */
  lemma {:induction false} EscapeGrows(s: bytes)
    ensures |Escape(s)| >= |s|
    ensures Flags(s) == 1 ==> |Escape(s)| > |s|
  {
    hide EscapeByte, NeedsEscape;
    if s != [] {
      EscapedByteGrows(s[0]);
      EscapeGrows(s[1..]);
      if b :| b in s && NeedsEscape(b) && b != s[0] {
        assert b in s[1..];
      }
    }
  }

  /** The flag says whether escaping changes the string. */
  lemma FlagsDecided(s: bytes)
    ensures Flags(s) == if Escape(s) == s then 0 else 1
  {
    if Flags(s) == 0 {
      EscapeFixesPlain(s);
    } else {
      EscapeGrows(s);
    }
  }

  lemma FlagsValue(s: bytes)
    ensures Flags(s) in {0, 1}
  {
  }

  lemma FlagsConcat(a: bytes, b: bytes)
    ensures Flags(a + b) == if Flags(a) == 1 then 1 else Flags(b)
  {
    assert forall x :: x in a + b <==> x in a || x in b;
  }

  lemma {:induction false} EscapeLength(s: bytes)
    ensures |Escape(s)| <= 6 * |s|
  {
    if s != [] {
      EscapeLength(s[1..]);
    }
  }

  /** Escaping brings in nothing but backslashes, quotes, the letters of escapes, and digits in lower case. */
  predicate InEscapes(b: byte) {
    b == 92 || b == 34 || b in {98, 102, 110, 114, 116, 117} || 48 <= b <= 57 || 97 <= b <= 102
  }

  lemma EscapeByteAlphabet(b: byte)
    ensures forall x :: x in EscapeByte(b) ==> x >= 32 && (x == b || InEscapes(x))
  {
  }

  lemma {:induction false} EscapeAlphabet(s: bytes)
    ensures forall b :: b in Escape(s) ==> b >= 32 && (b in s || InEscapes(b))
  {
    hide EscapeByte, InEscapes;
    if s != [] {
      EscapeByteAlphabet(s[0]);
      EscapeAlphabet(s[1..]);
      assert s[0] in s && forall b :: b in s[1..] ==> b in s;
      assert forall b :: b in Escape(s) <==> b in EscapeByte(s[0]) || b in Escape(s[1..]);
    }
  }

  // ---------- integers ----------

  function Decimal(n: nat): (t: bytes)
    ensures |t| >= 1
  {
    if n < 10 then [48 + n] else Decimal(n / 10) + [48 + n % 10]
  }

  function IntegerText(i: int): bytes {
    if i < 0 then [45] + Decimal(-i) else Decimal(i)
  }

  function Pow10(k: nat): nat {
    if k == 0 then 1 else 10 * Pow10(k - 1)
  }

  lemma {:induction false} DecimalLength(n: nat, k: nat)
    requires k >= 1 && n < Pow10(k)
    ensures |Decimal(n)| <= k
  {
    if n >= 10 {
      DecimalLength(n / 10, k - 1);
    }
  }

  /** 64-bit integers fit write_number's buffer. */
  lemma IntegerTextLength(i: int)
    requires INT64_MIN <= i <= UINT64_MAX
    ensures |IntegerText(i)| <= 21
  {
    assert Pow10(5) == 100_000;
    assert Pow10(10) == 10_000_000_000 by { assert Pow10(7) == 10_000_000; }
    assert Pow10(12) == 1_000_000_000_000;
    assert Pow10(15) == 1_000_000_000_000_000 by { assert Pow10(14) == 100_000_000_000_000; }
    assert Pow10(17) == 100_000_000_000_000_000;
    assert Pow10(20) == 100_000_000_000_000_000_000 by { assert Pow10(19) == 10_000_000_000_000_000_000; }
    DecimalLength(if i < 0 then -i else i, 20);
  }

  /** write_number. A non-finite double has no text; the empty one marks it. */
  function NumberText(j: Json): bytes {
    match j
    case JInt(i) => IntegerText(i)
    case JUInt(u) => IntegerText(u)
    case JFloat(Finite(t)) => t
    case JFloat(NegativeZero) => NEGATIVE_ZERO_TEXT
    case _ => []
  }

  // ---------- values ----------

  /** Compact, or pretty with `indent` spaces a level. */
  datatype Format = Format(pretty: bool, indent: byte)

  function Spaces(n: nat): (t: bytes)
    ensures |t| == n
  {
    if n == 0 then [] else [SPACE] + Spaces(n - 1)
  }

  /** The line break before a member or a closing bracket at `depth`. */
  function Break(f: Format, depth: nat): bytes {
    if f.pretty then [NEWLINE] + Spaces(depth * f.indent) else []
  }

  function Open(isObject: bool): byte {
    if isObject then 123 else 91
  }

  function Close(isObject: bool): byte {
    if isObject then 125 else 93
  }

  /** The key, colon and pretty-printer's space in front of an object member. */
  function Prefix(isObject: bool, key: bytes, f: Format): bytes {
    if isObject then Quoted(key) + (if f.pretty then [COLON, SPACE] else [COLON]) else []
  }

  function Print(j: Json, f: Format, depth: nat): bytes
    decreases j, 0
  {
    match j
    case JNull => NULL_TEXT
    case JBool(b) => if b then TRUE_TEXT else FALSE_TEXT
    case JString(s) => Quoted(s)
    case JContainer(o, ms) =>
      [Open(o)] + (if ms == [] then [] else PrintMembers(o, ms, f, depth + 1, true) + Break(f, depth)) + [Close(o)]
    case _ => NumberText(j)
  }

  function PrintMembers(o: bool, ms: seq<Member>, f: Format, depth: nat, first: bool): bytes
    decreases ms, 1
  {
    if ms == [] then []
    else
      (if first then [] else [COMMA]) + Break(f, depth) + Prefix(o, ms[0].key, f)
      + Print(ms[0].value, f, depth) + PrintMembers(o, ms[1..], f, depth, false)
  }

  /** No value has an empty text. */
  lemma PrintSome(j: Json, f: Format, depth: nat)
    requires Storable(j)
    ensures Print(j, f, depth) != []
  {
    hide PrintMembers, Escape, Break;
  }

  // ---------- output size ----------

  lemma IndentBound(f: Format, depth: nat, bound: nat)
    requires depth <= bound
    ensures |Break(f, depth)| <= 1 + 255 * bound
  {
    assert depth * f.indent <= 255 * bound by {
      assert depth * f.indent <= depth * 255;
    }
  }

  lemma PrefixBound(o: bool, key: bytes, f: Format)
    ensures |Prefix(o, key, f)| <= 6 * |key| + 4
  {
    EscapeLength(key);
  }

  /** What `n` nodes may print when no depth exceeds `bound`. */
  function Charge(n: nat, bound: nat): nat {
    n * (510 * bound + 80)
  }

  lemma ChargeNone(bound: nat)
    ensures Charge(0, bound) == 0
    ensures Charge(1, bound) == 510 * bound + 80
  {
  }

  lemma ChargeAdds(a: nat, b: nat, bound: nat)
    ensures Charge(a + b, bound) == Charge(a, bound) + Charge(b, bound)
  {
  }

  /** Every node pays for its token, two line breaks and punctuation; every string byte at most sixfold. */
  lemma {:induction false} PrintBound(j: Json, f: Format, depth: nat, bound: nat)
    requires Storable(j)
    requires depth + Nodes(j) <= bound
    ensures |Print(j, f, depth)| + 255 * bound + 9 <= Charge(Nodes(j), bound) + 6 * Strings(j)
    decreases j, 0
  {
    hide PrintMembers, Break, Escape, Decimal, NodesOf, StringsOf, Charge;
    ChargeNone(bound);
    match j
    case JString(s) => EscapeLength(s);
    case JInt(i) => IntegerTextLength(i);
    case JUInt(u) => IntegerTextLength(u);
    case JContainer(o, ms) =>
      ChargeAdds(1, NodesOf(ms), bound);
      if ms != [] {
        PrintMembersBound(o, ms, f, depth + 1, true, bound);
        IndentBound(f, depth, bound);
      }
    case _ =>
  }

  lemma {:induction false} PrintMembersBound(o: bool, ms: seq<Member>, f: Format, depth: nat, first: bool, bound: nat)
    requires AllStorable(o, ms)
    requires depth + NodesOf(ms) <= bound
    ensures |PrintMembers(o, ms, f, depth, first)| <= Charge(NodesOf(ms), bound) + 6 * StringsOf(ms)
    decreases ms, 1
  {
    hide Print, Prefix, Break, Nodes, Strings, Charge;
    if ms != [] {
      var m, rest := ms[0], ms[1..];
      PrefixBound(o, m.key, f);
      assert m in ms && forall x :: x in rest ==> x in ms;
      PrintBound(m.value, f, depth, bound);
      PrintMembersBound(o, rest, f, depth, false, bound);
      IndentBound(f, depth, bound);
      ChargeAdds(Nodes(m.value), NodesOf(rest), bound);
    }
  }

  /** The whole charge of the largest slab. */
  lemma ChargeLimit(n: nat)
    requires n <= 2730
    ensures Charge(n, 2730) <= 3_801_197_400
  {
    assert Charge(n, 2730) == n * 1_392_380;
  }
}

/** The abstract JSON values that a slab stores, a text denotes and a copy preserves. */
module Json {
  import opened Base
  import Utf8

  const INT64_MIN := -0x8000_0000_0000_0000
  const INT64_MAX := 0x7FFF_FFFF_FFFF_FFFF
  const UINT64_MAX := 0xFFFF_FFFF_FFFF_FFFF

  /** sizeof(Slab::Node). Products spell the number out, so that they stay linear for the verifier. */
  const NODE_BYTES := 24

  /** What std::to_chars puts into write_number's 64-byte buffer for a finite double. */
  type FloatText = t: bytes | 0 < |t| <= 64 witness [48]

  /** A double, known only by its class and by its shortest decimal text. */
  datatype Double = NonFinite | NegativeZero | Finite(text: FloatText)

  /** A member of an object, or an element of an array under the empty key. */
  datatype Member = Member(key: bytes, value: Json)

  /** Objects are ordered and keep duplicate keys. */
  datatype Json =
    | JNull
    | JBool(b: bool)
    | JInt(i: int)
    | JUInt(u: int)
    | JFloat(d: Double)
    | JString(s: bytes)
    | JContainer(isObject: bool, members: seq<Member>)

  /** Integers in range, floats finite, text valid UTF-8, array elements without keys. */
  predicate Storable(j: Json)
    decreases j, 0
  {
    match j
    case JInt(i) => INT64_MIN <= i <= INT64_MAX
    case JUInt(u) => 0 <= u <= UINT64_MAX
    case JFloat(d) => d != NonFinite
    case JString(s) => Utf8.Valid(s)
    case JContainer(o, ms) => AllStorable(o, ms)
    case _ => true
  }

  predicate AllStorable(o: bool, ms: seq<Member>)
    decreases ms, 1
  {
    forall m | m in ms :: Storable(m.value) && (if o then Utf8.Valid(m.key) else m.key == [])
  }

  predicate HasFloat(j: Json)
    decreases j, 0
  {
    j.JFloat? || (j.JContainer? && exists m | m in j.members :: HasFloat(m.value))
  }

  /** Containers inside containers; a scalar has nesting 0. */
  function Nesting(j: Json): nat
    decreases j, 0
  {
    if j.JContainer? then 1 + NestingOf(j.members) else 0
  }

  function NestingOf(ms: seq<Member>): nat
    decreases ms, 1
  {
    if ms == [] then 0
    else
      var a, b := Nesting(ms[0].value), NestingOf(ms[1..]);
      if a < b then b else a
  }

  // ---------- memory ----------

  /** Tree nodes: one per value. */
  function Nodes(j: Json): (n: nat)
    ensures n >= 1
    decreases j, 0
  {
    if j.JContainer? then 1 + NodesOf(j.members) else 1
  }

  function NodesOf(ms: seq<Member>): nat
    decreases ms, 1
  {
    if ms == [] then 0 else Nodes(ms[0].value) + NodesOf(ms[1..])
  }

  /** String bytes: string values and object keys, decoded. */
  function Strings(j: Json): nat
    decreases j, 0
  {
    match j
    case JString(s) => |s|
    case JContainer(o, ms) => StringsOf(ms)
    case _ => 0
  }

  function StringsOf(ms: seq<Member>): nat
    decreases ms, 1
  {
    if ms == [] then 0 else |ms[0].key| + Strings(ms[0].value) + StringsOf(ms[1..])
  }

  /** The bytes of slab storage a value occupies. */
  function Footprint(j: Json): (n: nat)
    ensures n >= NODE_BYTES
  {
    24 * Nodes(j) + Strings(j)
  }

  function FootprintOf(ms: seq<Member>): nat {
    24 * NodesOf(ms) + StringsOf(ms)
  }

  lemma {:induction false} NodesConcat(a: seq<Member>, b: seq<Member>)
    ensures NodesOf(a + b) == NodesOf(a) + NodesOf(b)
    ensures StringsOf(a + b) == StringsOf(a) + StringsOf(b)
  {
    if a == [] {
      assert a + b == b;
    } else {
      NodesConcat(a[1..], b);
      assert (a + b)[1..] == a[1..] + b;
    }
  }

  /** Adding a member costs its key and its value. */
  lemma FootprintSnoc(ms: seq<Member>, m: Member)
    ensures FootprintOf(ms + [m]) == FootprintOf(ms) + |m.key| + Footprint(m.value)
  {
    NodesConcat(ms, [m]);
    assert NodesOf([m]) == Nodes(m.value) + NodesOf([]);
    assert StringsOf([m]) == |m.key| + Strings(m.value) + StringsOf([]);
  }

  // ---------- number kinds ----------

  /** The kind a number has after a round trip: signed whenever it fits. */
  function Normal(j: Json): Json
    decreases j, 0
  {
    match j
    case JUInt(u) => if u <= INT64_MAX then JInt(u) else j
    case JContainer(o, ms) => JContainer(o, NormalOf(ms))
    case _ => j
  }

  function NormalOf(ms: seq<Member>): (r: seq<Member>)
    ensures |r| == |ms|
    decreases ms, 1
  {
    if ms == [] then [] else [Member(ms[0].key, Normal(ms[0].value))] + NormalOf(ms[1..])
  }

  /** Normalising changes no size and no nesting. */
  lemma {:induction false} NormalKeepsShape(j: Json)
    ensures Nodes(Normal(j)) == Nodes(j) && Strings(Normal(j)) == Strings(j) && Nesting(Normal(j)) == Nesting(j)
    decreases j, 0
  {
    if j.JContainer? {
      NormalOfKeepsShape(j.members);
    }
  }

  lemma {:induction false} NormalOfKeepsShape(ms: seq<Member>)
    ensures NodesOf(NormalOf(ms)) == NodesOf(ms) && StringsOf(NormalOf(ms)) == StringsOf(ms)
    ensures NestingOf(NormalOf(ms)) == NestingOf(ms)
    decreases ms, 1
  {
    if ms != [] {
      NormalKeepsShape(ms[0].value);
      NormalOfKeepsShape(ms[1..]);
      assert NormalOf(ms)[1..] == NormalOf(ms[1..]);
    }
  }
}

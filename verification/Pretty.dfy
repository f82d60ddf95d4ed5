/** Where printed texts break their lines and how far they indent them, as a scan of the text alone finds it. */
module Pretty {
  import opened Base
  import opened Json
  import opened Text
  import opened Numbers
  import opened RoundTrip
  import Strings
  import Utf8

  // ---------- the scan ----------

  /** Tab, line feed, carriage return or space. */
  predicate IsWhite(b: byte) {
    b == 9 || b == 10 || b == 13 || b == 32
  }

  /** `[` or `{`. */
  predicate Opens(b: byte) {
    b == 91 || b == 123
  }

  /** `]` or `}`. */
  predicate Closes(b: byte) {
    b == 93 || b == 125
  }

  /** How many bytes of `t`, which starts inside a string, are left of it, its closing quote included. */
  function StringEnd(t: bytes): (n: nat)
    ensures n <= |t|
    decreases |t|
  {
    if t == [] then 0
    else if t[0] == 34 then 1
    else if t[0] == 92 && |t| > 1 then 2 + StringEnd(t[2..])
    else 1 + StringEnd(t[1..])
  }

  /** A line break and `f.indent` blanks for each of `open` brackets; compact texts have neither. */
  function LineLength(f: Format, open: nat): nat {
    if f.pretty then 1 + open * f.indent else 0
  }

  /** `t` starts with exactly these, and goes on with a closing bracket or with something else that is not white. */
  predicate StartsLine(t: bytes, f: Format, open: nat, closing: bool) {
    var n := LineLength(f, open);
    && n < |t| && (f.pretty ==> t[0] == 10) && (forall k :: 1 <= k < n ==> t[k] == 32)
    && !IsWhite(t[n]) && Closes(t[n]) == closing
  }

  /** `t` goes on with a blank, if the format is pretty, and then with something that is not white. */
  predicate StartsValue(t: bytes, f: Format) {
    var n := if f.pretty then 1 else 0;
    n < |t| && (f.pretty ==> t[0] == 32) && !IsWhite(t[n])
  }

  /**
   * The layout of `t`, which is scanned with `open` brackets open, strings being skipped. Behind an opening bracket
   * that its closing bracket does not follow at once, behind every comma and before every other closing bracket a line
   * starts, indented by the brackets open there; behind a colon stands one blank; nowhere else is anything white. In
   * a compact text nothing is. Characters are numbers here, so that nothing depends on how the printer names them.
   */
  predicate Laid(t: bytes, f: Format, open: nat)
    decreases |t|
  {
    if t == [] then open == 0
    else
      var b, rest := t[0], t[1..];
      if b == 34 then Laid(rest[StringEnd(rest)..], f, open)
      else if Opens(b) && rest != [] && Closes(rest[0]) then Laid(rest[1..], f, open)
      else if Opens(b) then StartsLine(rest, f, open + 1, false) && Laid(rest[LineLength(f, open + 1)..], f, open + 1)
      else if b == 44 then StartsLine(rest, f, open, false) && Laid(rest[LineLength(f, open)..], f, open)
      else if IsWhite(b) || Closes(b) then
        open > 0 && StartsLine(t, f, open - 1, true) && Laid(t[LineLength(f, open - 1) + 1..], f, open - 1)
      else if b == 58 then StartsValue(rest, f) && Laid(rest[if f.pretty then 1 else 0..], f, open)
      else Laid(rest, f, open)
  }

  // ---------- tokens ----------

  lemma Dropped(a: bytes, b: bytes)
    ensures (a + b)[|a|..] == b
  {
  }

  lemma PairSkipped(b: byte, rest: bytes)
    ensures StringEnd([92, b] + rest) == 2 + StringEnd(rest)
  {
    Dropped([92, b], rest);
  }

  lemma ByteSkipped(b: byte, rest: bytes)
    requires b != 34 && b != 92
    ensures StringEnd([b] + rest) == 1 + StringEnd(rest)
  {
    Dropped([b], rest);
  }

  /** The escaped form of a byte does not end the string. */
  lemma EscapedByteSkipped(b: byte, rest: bytes)
    ensures StringEnd(EscapeByte(b) + rest) == |EscapeByte(b)| + StringEnd(rest)
  {
    hide StringEnd;
    var e := EscapeByte(b);
    if |e| == 1 {
      ByteSkipped(b, rest);
    } else if |e| == 2 {
      PairSkipped(e[1], rest);
    } else {
      var fourth := [e[5]] + rest;
      var third := [e[4]] + fourth;
      ByteSkipped(e[5], rest);
      ByteSkipped(e[4], fourth);
      ByteSkipped(48, third);
      ByteSkipped(48, [48] + third);
      PairSkipped(117, [48] + ([48] + third));
      assert e + rest == [92, 117] + ([48] + ([48] + third));
    }
  }

  lemma {:induction false} EscapedSkipped(s: bytes, rest: bytes)
    ensures StringEnd(Escape(s) + ([34] + rest)) == |Escape(s)| + 1
  {
    hide EscapeByte, StringEnd;
    if s == [] {
      assert Escape(s) + ([34] + rest) == [34] + rest;
      QuoteEnds(rest);
    } else {
      Associate(EscapeByte(s[0]), Escape(s[1..]), [34] + rest);
      EscapedByteSkipped(s[0], Escape(s[1..]) + ([34] + rest));
      EscapedSkipped(s[1..], rest);
    }
  }

  lemma QuoteEnds(rest: bytes)
    ensures StringEnd([34] + rest) == 1
  {
  }

  lemma QuotedLaid(s: bytes, rest: bytes, f: Format, open: nat)
    ensures Laid(Quoted(s) + rest, f, open) == Laid(rest, f, open)
  {
    hide Escape, StringEnd, StartsLine, StartsValue;
    var inner := Escape(s) + ([34] + rest);
    var t := Quoted(s) + rest;
    assert t[1..] == inner;
    EscapedSkipped(s, rest);
    assert inner[|Escape(s)| + 1..] == rest;
  }

  /** A byte that the scan passes over. */
  predicate Ordinary(b: byte) {
    b != 34 && b != 44 && b != 58 && !IsWhite(b) && !Opens(b) && !Closes(b)
  }

  lemma {:induction false} OrdinaryLaid(t: bytes, rest: bytes, f: Format, open: nat)
    requires forall b :: b in t ==> Ordinary(b)
    ensures Laid(t + rest, f, open) == Laid(rest, f, open)
  {
    hide StringEnd, StartsLine, StartsValue;
    if t == [] {
      assert t + rest == rest;
    } else {
      assert t[0] in t && Ordinary(t[0]);
      assert (t + rest)[1..] == t[1..] + rest;
      OrdinaryLaid(t[1..], rest, f, open);
    }
  }

  /** Something other than a closing bracket, and not white. */
  predicate StartsToken(t: bytes) {
    t != [] && !IsWhite(t[0]) && !Closes(t[0])
  }

  lemma {:induction false} SpacesWhite(n: nat)
    ensures forall k :: 0 <= k < n ==> Spaces(n)[k] == 32
  {
    if n > 0 {
      SpacesWhite(n - 1);
    }
  }

  lemma BreakStarts(f: Format, open: nat, rest: bytes)
    requires rest != [] && !IsWhite(rest[0])
    ensures |Break(f, open)| == LineLength(f, open)
    ensures StartsLine(Break(f, open) + rest, f, open, Closes(rest[0]))
    ensures (Break(f, open) + rest)[LineLength(f, open)..] == rest
  {
    if f.pretty {
      SpacesWhite(open * f.indent);
    }
  }

  lemma EmptyLaid(o: bool, rest: bytes, f: Format, open: nat)
    ensures Laid([Open(o)] + ([Close(o)] + rest), f, open) == Laid(rest, f, open)
  {
    hide StartsLine, StartsValue;
    var t := [Open(o)] + ([Close(o)] + rest);
    assert t[1..] == [Close(o)] + rest;
    assert ([Close(o)] + rest)[1..] == rest;
  }

  lemma OpenLaid(o: bool, rest: bytes, f: Format, open: nat)
    requires StartsToken(rest) && Laid(rest, f, open + 1)
    ensures Laid([Open(o)] + (Break(f, open + 1) + rest), f, open)
  {
    hide StartsLine, StartsValue, LineLength, StringEnd;
    var line := Break(f, open + 1) + rest;
    assert ([Open(o)] + line)[1..] == line;
    BreakStarts(f, open + 1, rest);
    assert !Closes(line[0]);
  }

  lemma CommaLaid(rest: bytes, f: Format, open: nat)
    requires StartsToken(rest) && Laid(rest, f, open)
    ensures Laid([COMMA] + (Break(f, open) + rest), f, open)
  {
    hide StartsLine, StartsValue, LineLength, StringEnd;
    var line := Break(f, open) + rest;
    assert ([COMMA] + line)[1..] == line;
    BreakStarts(f, open, rest);
  }

  lemma CloseLaid(o: bool, rest: bytes, f: Format, open: nat)
    requires Laid(rest, f, open)
    ensures Laid(Break(f, open) + ([Close(o)] + rest), f, open + 1)
  {
    hide Break, StartsLine, StartsValue, LineLength, StringEnd;
    var last := [Close(o)] + rest;
    var t := Break(f, open) + last;
    BreakStarts(f, open, last);
    BreakFirst(f, open);
    Associate(Break(f, open), [Close(o)], rest);
    Dropped(Break(f, open) + [Close(o)], rest);
    CloseStep(t, f, open);
  }

  lemma BreakFirst(f: Format, open: nat)
    ensures if f.pretty then Break(f, open) != [] && Break(f, open)[0] == 10 else Break(f, open) == []
  {
  }

  /** One step of the scan, at the line of a closing bracket. */
  lemma CloseStep(t: bytes, f: Format, open: nat)
    requires t != [] && (IsWhite(t[0]) || Closes(t[0])) && StartsLine(t, f, open, true)
    ensures LineLength(f, open) < |t| && Laid(t, f, open + 1) == Laid(t[LineLength(f, open) + 1..], f, open)
  {
    hide LineLength, StringEnd;
  }

  lemma ColonLaid(rest: bytes, f: Format, open: nat)
    requires StartsToken(rest) && Laid(rest, f, open)
    ensures Laid([58] + ((if f.pretty then [32] else []) + rest), f, open)
  {
    hide StartsLine, StringEnd;
    var blank := if f.pretty then [32] else [];
    Dropped([58], blank + rest);
    Dropped(blank, rest);
  }

  lemma PrefixLaid(o: bool, key: bytes, rest: bytes, f: Format, open: nat)
    requires StartsToken(rest) && Laid(rest, f, open)
    ensures Laid(Prefix(o, key, f) + rest, f, open) && StartsToken(Prefix(o, key, f) + rest)
  {
    hide Laid, Quoted;
    if o {
      var tail := [58] + ((if f.pretty then [32] else []) + rest);
      assert Prefix(o, key, f) + rest == Quoted(key) + tail;
      ColonLaid(rest, f, open);
      QuotedLaid(key, tail, f, open);
      QuotedFirst(key);
    } else {
      assert [] + rest == rest;
    }
  }

  lemma QuotedFirst(s: bytes)
    ensures Quoted(s) != [] && Quoted(s)[0] == 34
  {
  }

  // ---------- numbers ----------

  lemma NumberOrdinary(n: Number)
    requires NumberOk(n)
    ensures StartsToken(NumberChars(n)) && forall b :: b in NumberChars(n) ==> Ordinary(b)
  {
    var s, f, e := SignChars(n.negative), FractionChars(n.fraction), ExponentChars(n.exponent);
    assert forall b :: b in n.integer ==> IsDigit(b);
    assert forall b :: b in f ==> b == 46 || IsDigit(b);
    assert forall b :: b in e ==> b == n.exponent.mark || b == 43 || b == 45 || IsDigit(b);
    assert NumberChars(n)[0] in NumberChars(n);
  }

  /** What the printer writes for numbers is a number of the grammar. */
  lemma NumberTextIsNumber(j: Json) returns (n: Number)
    requires Storable(j) && FloatsSpelled(j) && (j.JInt? || j.JUInt? || j.JFloat?)
    ensures NumberOk(n) && NumberText(j) == NumberChars(n)
  {
    hide NumberOk, NumberChars, IntegerText;
    match j
    case JInt(i) =>
      SpellIntegerRight(_ => None, i);
      n := SpellInteger(i);
    case JUInt(u) =>
      SpellIntegerRight(_ => None, u);
      n := SpellInteger(u);
    case JFloat(_) =>
      NegativeZeroRight();
      n := NumberOf(NumberText(j));
  }

  // ---------- values ----------

  lemma {:induction false} ValueLaid(j: Json, f: Format, open: nat, rest: bytes)
    requires Storable(j) && FloatsSpelled(j) && Laid(rest, f, open)
    ensures Laid(Print(j, f, open) + rest, f, open) && StartsToken(Print(j, f, open) + rest)
    decreases j, 0
  {
    hide PrintMembers, Break, Laid, Quoted, NumberOk, NumberText;
    match j
    case JNull => OrdinaryLaid(NULL_TEXT, rest, f, open);
    case JBool(b) => OrdinaryLaid(if b then TRUE_TEXT else FALSE_TEXT, rest, f, open);
    case JString(s) =>
      QuotedFirst(s);
      QuotedLaid(s, rest, f, open);
    case JContainer(o, ms) =>
      if ms == [] {
        assert Print(j, f, open) + rest == [Open(o)] + ([Close(o)] + rest);
        EmptyLaid(o, rest, f, open);
      } else {
        var tail := Break(f, open) + ([Close(o)] + rest);
        CloseLaid(o, rest, f, open);
        MembersLaid(o, ms, f, open + 1, tail);
        FirstBroken(o, ms, f, open + 1);
        var body := Body(o, ms, f, open + 1);
        OpenLaid(o, body + tail, f, open);
        Regrouped([Open(o)], Break(f, open + 1), body, Break(f, open), [Close(o)], rest);
      }
    case _ =>
      var n := NumberTextIsNumber(j);
      NumberOrdinary(n);
      OrdinaryLaid(NumberText(j), rest, f, open);
  }

  /** Members without the line that the first of them starts with. */
  function Body(o: bool, ms: seq<Member>, f: Format, depth: nat): bytes
    requires ms != []
  {
    Prefix(o, ms[0].key, f) + Print(ms[0].value, f, depth) + PrintMembers(o, ms[1..], f, depth, false)
  }

  lemma FirstBroken(o: bool, ms: seq<Member>, f: Format, depth: nat)
    requires ms != []
    ensures PrintMembers(o, ms, f, depth, true) == Break(f, depth) + Body(o, ms, f, depth)
    ensures PrintMembers(o, ms, f, depth, false) == [COMMA] + (Break(f, depth) + Body(o, ms, f, depth))
  {
    hide Break, Prefix, Print;
    var line, name, value := Break(f, depth), Prefix(o, ms[0].key, f), Print(ms[0].value, f, depth);
    var more := PrintMembers(o, ms[1..], f, depth, false);
    Grouped([], line, name, value, more);
    Grouped([COMMA], line, name, value, more);
    assert [] + (line + (name + value + more)) == line + (name + value + more);
  }

  lemma Grouped(a: bytes, b: bytes, c: bytes, d: bytes, e: bytes)
    ensures a + b + c + d + e == a + (b + (c + d + e))
  {
  }

  lemma Regrouped(a: bytes, b: bytes, c: bytes, d: bytes, e: bytes, rest: bytes)
    ensures a + ((b + c) + d) + e + rest == a + (b + (c + (d + (e + rest))))
  {
  }

  lemma {:induction false} MembersLaid(o: bool, ms: seq<Member>, f: Format, depth: nat, tail: bytes)
    requires Spellable(o, ms) && ms != [] && Laid(tail, f, depth)
    ensures Laid(Body(o, ms, f, depth) + tail, f, depth) && StartsToken(Body(o, ms, f, depth) + tail)
    decreases ms, 1
  {
    hide Print, Prefix, Break, Laid, PrintMembers, Storable, FloatsSpelled;
    var m, rest := ms[0], ms[1..];
    SpellRest(o, ms);
    var more := PrintMembers(o, rest, f, depth, false);
    if rest == [] {
      NoMembers(o, f, depth);
      assert more + tail == tail;
    } else {
      MembersLaid(o, rest, f, depth, tail);
      FirstBroken(o, rest, f, depth);
      CommaLaid(Body(o, rest, f, depth) + tail, f, depth);
      assert more + tail == [COMMA] + (Break(f, depth) + (Body(o, rest, f, depth) + tail));
    }
    ValueLaid(m.value, f, depth, more + tail);
    PrefixLaid(o, m.key, Print(m.value, f, depth) + (more + tail), f, depth);
    assert Body(o, ms, f, depth) + tail == Prefix(o, m.key, f) + (Print(m.value, f, depth) + (more + tail));
  }

  lemma NoMembers(o: bool, f: Format, depth: nat)
    ensures PrintMembers(o, [], f, depth, false) == []
  {
  }

  /** Every printed text has the layout of its format. */
  lemma PrintLaid(j: Json, f: Format)
    requires Storable(j) && FloatsSpelled(j)
    ensures Laid(Print(j, f, 0), f, 0)
  {
    hide Print, Storable, FloatsSpelled;
    ValueLaid(j, f, 0, []);
    assert Print(j, f, 0) + [] == Print(j, f, 0);
  }
}

/** JSON texts: sections 2 to 7 of RFC 8259 as syntax trees, and the parser's way of reading them. */
module Grammar {
  import opened Base
  import opened Json
  import opened Text
  import opened Strings
  import opened Numbers

  // ---------- the grammar ----------

  /** A derivation of `value`, with the insignificant whitespace the parser accepts. */
  datatype Syntax =
    | NullSyntax
    | BoolSyntax(b: bool)
    | NumberSyntax(n: Number)
    | StringSyntax(us: seq<Unit>)
    | ContainerSyntax(isObject: bool, blank: bytes, items: seq<Item>)

  /** A member or an element; elements have no key. */
  datatype Item = Item(before: bytes, key: seq<Unit>, afterKey: bytes, beforeValue: bytes, value: Syntax, after: bytes)

  predicate IsBlank(b: byte) {
    b == SPACE || b == 9 || b == NEWLINE || b == 13
  }

  predicate AreBlank(t: bytes) {
    forall k :: 0 <= k < |t| ==> IsBlank(t[k])
  }

  predicate SyntaxOk(x: Syntax)
    decreases x, 0
  {
    match x
    case NumberSyntax(n) => NumberOk(n)
    case StringSyntax(us) => UnitsOk(us)
    case ContainerSyntax(o, blank, items) => AreBlank(blank) && ItemsOk(o, items)
    case _ => true
  }

  predicate ItemOk(o: bool, it: Item) {
    && AreBlank(it.before) && AreBlank(it.after)
    && UnitsOk(it.key) && AreBlank(it.afterKey) && AreBlank(it.beforeValue)
    && (o || (it.key == [] && it.afterKey == [] && it.beforeValue == []))
  }

  predicate ItemsOk(o: bool, items: seq<Item>)
    decreases items, 1
  {
    items == [] || (ItemOk(o, items[0]) && SyntaxOk(items[0].value) && ItemsOk(o, items[1..]))
  }

  function KeyText(o: bool, it: Item): bytes {
    if o then QuotedUnits(it.key) + (it.afterKey + [COLON] + it.beforeValue) else []
  }

  function SyntaxText(x: Syntax): bytes
    decreases x, 0
  {
    match x
    case NullSyntax => NULL_TEXT
    case BoolSyntax(b) => if b then TRUE_TEXT else FALSE_TEXT
    case NumberSyntax(n) => NumberChars(n)
    case StringSyntax(us) => QuotedUnits(us)
    case ContainerSyntax(o, blank, items) =>
      [Open(o)] + (if items == [] then blank else ItemsText(o, items)) + [Close(o)]
  }

  function ItemText(o: bool, it: Item): bytes
    decreases it, 1
  {
    it.before + KeyText(o, it) + (SyntaxText(it.value) + it.after)
  }

  function ItemsText(o: bool, items: seq<Item>): bytes
    decreases items, 1
  {
    if items == [] then []
    else
      var it := items[0];
      ItemText(o, it) + (if |items| == 1 then [] else [COMMA] + ItemsText(o, items[1..]))
  }

  /** How deep containers are nested. */
  function Depth(x: Syntax): nat
    decreases x, 0
  {
    if x.ContainerSyntax? then 1 + DepthOf(x.items) else 0
  }

  function DepthOf(items: seq<Item>): nat
    decreases items, 1
  {
    if items == [] then 0
    else
      var a, b := Depth(items[0].value), DepthOf(items[1..]);
      if a < b then b else a
  }

  /** The value a derivation denotes; none when a number is out of range. */
  function Meaning(fp: FloatReader, x: Syntax): Option<Json>
    requires SyntaxOk(x)
    decreases x, 0
  {
    match x
    case NullSyntax => Some(JNull)
    case BoolSyntax(b) => Some(JBool(b))
    case NumberSyntax(n) => Convert(fp, NumberChars(n), IsFloat(n))
    case StringSyntax(us) => Some(JString(UnitsValue(us)))
    case ContainerSyntax(o, blank, items) =>
      var ms :- MeaningOf(fp, o, items);
      Some(JContainer(o, ms))
  }

  function MeaningOf(fp: FloatReader, o: bool, items: seq<Item>): Option<seq<Member>>
    requires ItemsOk(o, items)
    decreases items, 1
  {
    if items == [] then Some([])
    else
      var v :- Meaning(fp, items[0].value);
      var rest :- MeaningOf(fp, o, items[1..]);
      Some([Member(UnitsValue(items[0].key), v)] + rest)
  }

  /**
   * What a number denotes. One with a fraction or an exponent is the double that the conversion gives, if that is
   * finite; any other is the integer it spells, if that fits 64 bits, and signed exactly if it fits them signed.
   */
  lemma NumberMeaning(fp: FloatReader, n: Number)
    requires NumberOk(n)
    ensures IsFloat(n) ==> forall j ::
      Meaning(fp, NumberSyntax(n)) == Some(j) <==>
      j.JFloat? && fp(NumberChars(n)) == Some(j.d) && j.d != NonFinite
    ensures !IsFloat(n) ==>
      var v := SignedValue(n);
      && (Meaning(fp, NumberSyntax(n)).Some? <==> INT64_MIN <= v <= UINT64_MAX)
      && (INT64_MIN <= v <= INT64_MAX ==> Meaning(fp, NumberSyntax(n)) == Some(JInt(v)))
      && (INT64_MAX < v <= UINT64_MAX ==> Meaning(fp, NumberSyntax(n)) == Some(JUInt(v)))
  {
    hide DigitsValue, PlaceValue;
    if !IsFloat(n) {
      DigitsPlaces(n.integer);
      PlacesPositive(n.integer);
      IntegerChars(n);
    }
  }

  // ---------- the reader ----------

  function SkipBlank(input: bytes, i: nat): (r: nat)
    requires i <= |input|
    ensures i <= r <= |input|
    ensures r < |input| ==> !IsBlank(input[r])
    decreases |input| - i
  {
    if i < |input| && IsBlank(input[i]) then SkipBlank(input, i + 1) else i
  }

  /** The key and the colon of an object member; nothing for an array element. */
  function ReadKey(input: bytes, i: nat, o: bool): (r: Option<(bytes, nat)>)
    requires i < |input|
    ensures r.Some? ==> i <= r.value.1 <= |input|
  {
    if !o then Some(([], i))
    else if input[i] != QUOTE then None
    else
      var s :- ReadString(input, i + 1);
      var c := SkipBlank(input, s.1);
      if c < |input| && input[c] == COLON then Some((s.0, c + 1)) else None
  }

  /** A value from position `i` on, with at most `fuel` containers nested; and the position behind it. */
  function ReadValue(fp: FloatReader, input: bytes, i: nat, fuel: nat): (r: Option<(Json, nat)>)
    requires i <= |input|
    ensures r.Some? ==> i < r.value.1 <= |input|
    decreases |input| - i, 0
  {
    var p := SkipBlank(input, i);
    if p == |input| then None
    else if input[p] == 110 then
      if At(input, p, NULL_TEXT) then Some((JNull, p + 4)) else None
    else if input[p] == 116 then
      if At(input, p, TRUE_TEXT) then Some((JBool(true), p + 4)) else None
    else if input[p] == 102 then
      if At(input, p, FALSE_TEXT) then Some((JBool(false), p + 5)) else None
    else if input[p] == QUOTE then
      var s :- ReadString(input, p + 1);
      Some((JString(s.0), s.1))
    else if input[p] == Open(false) || input[p] == Open(true) then
      ReadContainer(fp, input, p, fuel, input[p] == Open(true))
    else if input[p] == 45 || IsDigit(input[p]) then
      var n :- ReadNumber(input, p);
      var j :- Convert(fp, input[p..n.1], n.0 != n.1);
      Some((j, n.1))
    else None
  }

  function ReadContainer(fp: FloatReader, input: bytes, p: nat, fuel: nat, o: bool): (r: Option<(Json, nat)>)
    requires p < |input|
    ensures r.Some? ==> p < r.value.1 <= |input|
    decreases |input| - p - 1, 2
  {
    if fuel == 0 then None
    else
      var q := SkipBlank(input, p + 1);
      if q == |input| then None
      else if input[q] == Close(o) then Some((JContainer(o, []), q + 1))
      else
        var ms :- ReadMembers(fp, input, q, fuel - 1, o, []);
        Some((JContainer(o, ms.0), ms.1))
  }

  /** The members from position `i` on, behind those in `acc`, up to the closing bracket. */
  function ReadMembers(fp: FloatReader, input: bytes, i: nat, fuel: nat, o: bool,
                       acc: seq<Member>): (r: Option<(seq<Member>, nat)>)
    requires i < |input|
    ensures r.Some? ==> i < r.value.1 <= |input| && acc <= r.value.0
    decreases |input| - i, 1
  {
    var key :- ReadKey(input, i, o);
    var v :- ReadValue(fp, input, key.1, fuel);
    var ms := acc + [Member(key.0, v.0)];
    var e := SkipBlank(input, v.1);
    if e == |input| then None
    else if input[e] == Close(o) then Some((ms, e + 1))
    else if input[e] != COMMA then None
    else
      var next := SkipBlank(input, e + 1);
      if next == |input| then None else ReadMembers(fp, input, next, fuel, o, ms)
  }

  /** A whole text. */
  function ReadDocument(fp: FloatReader, input: bytes, maxDepth: nat, trailing: bool): Option<Json> {
    var v :- ReadValue(fp, input, 0, maxDepth);
    if (if trailing then SkipBlank(input, v.1) else v.1) == |input| then Some(v.0) else None
  }

  // ---------- whatever is read is grammatical ----------

  lemma {:induction false} SkipBlankSound(input: bytes, i: nat)
    requires i <= |input|
    ensures var t := input[i..SkipBlank(input, i)];
            AreBlank(t) && At(input, i, t)
    decreases |input| - i
  {
    if i < |input| && IsBlank(input[i]) {
      SkipBlankSound(input, i + 1);
      var t, rest := input[i..SkipBlank(input, i)], input[i + 1..SkipBlank(input, i + 1)];
      assert t == [input[i]] + rest;
    }
  }

  lemma KeyTextAt(input: bytes, i: nat, it: Item)
    ensures var q := i + |QuotedUnits(it.key)|;
            var c := q + |it.afterKey|;
            At(input, i, KeyText(true, it)) <==>
            At(input, i, QuotedUnits(it.key)) && At(input, q, it.afterKey) && At(input, c, [COLON])
                && At(input, c + 1, it.beforeValue)
    ensures |KeyText(true, it)| == |QuotedUnits(it.key)| + |it.afterKey| + 1 + |it.beforeValue|
  {
    hide At, QuotedUnits;
    var q := i + |QuotedUnits(it.key)|;
    AtConcat(input, q, it.afterKey, [COLON]);
    AtConcat(input, q, it.afterKey + [COLON], it.beforeValue);
    AtConcat(input, i, QuotedUnits(it.key), it.afterKey + [COLON] + it.beforeValue);
  }

  /** An item whose value is still missing, up to the start of that value. */
  lemma KeySound(input: bytes, b: nat, i: nat, o: bool) returns (it: Item)
    requires b <= i < |input| && i == SkipBlank(input, b) && ReadKey(input, i, o).Some?
    ensures ItemOk(o, it) && ReadKey(input, i, o).value.0 == UnitsValue(it.key)
    ensures At(input, b, it.before) && At(input, i, KeyText(o, it)) && i == b + |it.before|
    ensures SkipBlank(input, ReadKey(input, i, o).value.1) == i + |KeyText(o, it)|
  {
    hide At, ReadString, UnitsText, QuotedUnits, SkipBlank, AreBlank, UnitOk;
    NothingBlank();
    SkipBlankSound(input, b);
    it := Item(input[b..i], [], [], [], NullSyntax, []);
    NothingAt(input, i);
    SkipBlankStays(input, i);
    if o {
      var us := QuotedSound(input, i);
      var q := ReadString(input, i + 1).value.1;
      var c := SkipBlank(input, q);
      var v := SkipBlank(input, c + 1);
      SkipBlankSound(input, q);
      SkipBlankSound(input, c + 1);
      it := Item(input[b..i], us, input[q..c], input[c + 1..v], NullSyntax, []);
      AtByte(input, c, COLON);
      KeyTextAt(input, i, it);
    }
  }

  lemma SkipBlankStays(input: bytes, i: nat)
    requires i < |input| && !IsBlank(input[i])
    ensures SkipBlank(input, i) == i
  {
  }

  /** What is left when positions and texts of a container's pieces are known. */
  lemma ContainerAt(input: bytes, p: nat, o: bool, inner: bytes)
    ensures At(input, p, [Open(o)] + inner + [Close(o)]) <==>
            && p < |input| && input[p] == Open(o) && At(input, p + 1, inner)
            && p + 1 + |inner| < |input| && input[p + 1 + |inner|] == Close(o)
  {
    AtConcat(input, p, [Open(o)] + inner, [Close(o)]);
    AtConcat(input, p, [Open(o)], inner);
    AtByte(input, p, Open(o));
    AtByte(input, p + 1 + |inner|, Close(o));
  }

  lemma ItemAt(input: bytes, b: nat, o: bool, it: Item)
    ensures var i := b + |it.before|;
            var v := i + |KeyText(o, it)|;
            At(input, b, ItemText(o, it)) <==>
            && At(input, b, it.before) && At(input, i, KeyText(o, it))
            && At(input, v, SyntaxText(it.value)) && At(input, v + |SyntaxText(it.value)|, it.after)
  {
    hide At, KeyText, SyntaxText;
    var x := SyntaxText(it.value);
    AtConcat(input, b, it.before, KeyText(o, it));
    AtConcat(input, b + |it.before + KeyText(o, it)|, x, it.after);
    AtConcat(input, b, it.before + KeyText(o, it), x + it.after);
  }

  lemma ItemsAt(input: bytes, b: nat, o: bool, items: seq<Item>)
    requires items != []
    ensures var e := b + |ItemText(o, items[0])|;
            At(input, b, ItemsText(o, items)) <==>
            && At(input, b, ItemText(o, items[0]))
            && (|items| > 1 ==> e < |input| && input[e] == COMMA && At(input, e + 1, ItemsText(o, items[1..])))
    ensures |ItemsText(o, items)| ==
        |ItemText(o, items[0])| + (if |items| == 1 then 0 else 1 + |ItemsText(o, items[1..])|)
  {
    hide At, ItemText;
    var one := ItemText(o, items[0]);
    var rest := ItemsText(o, items[1..]);
    if |items| == 1 {
      assert ItemsText(o, items) == one + [] == one;
    } else {
      assert ItemsText(o, items) == one + ([COMMA] + rest);
      AtConcat(input, b, one, [COMMA] + rest);
      AtConcat(input, b + |one|, [COMMA], rest);
      AtByte(input, b + |one|, COMMA);
    }
  }

  /** Sound: a value that is read is the meaning of a derivation of the text it was read from. */
  lemma {:induction false} ValueSound(fp: FloatReader, input: bytes, i: nat, fuel: nat) returns (x: Syntax)
    requires i <= |input| && ReadValue(fp, input, i, fuel).Some?
    ensures SyntaxOk(x) && Depth(x) <= fuel
    ensures At(input, SkipBlank(input, i), SyntaxText(x))
    ensures ReadValue(fp, input, i, fuel).value.1 == SkipBlank(input, i) + |SyntaxText(x)|
    ensures Meaning(fp, x) == Some(ReadValue(fp, input, i, fuel).value.0)
    decreases |input| - i, 0
  {
    hide ReadString, UnitsText, QuotedUnits, UnitsOk, ReadNumber, NumberChars, NumberOk, IsFloat, Convert, SkipBlank,
         ReadContainer, ItemsText, UnitsValue, MeaningOf, ItemsOk, DepthOf;
    var p := SkipBlank(input, i);
    if input[p] == 110 {
      x := NullSyntax;
    } else if input[p] == 116 {
      x := BoolSyntax(true);
    } else if input[p] == 102 {
      x := BoolSyntax(false);
    } else if input[p] == QUOTE {
      var us := QuotedSound(input, p);
      x := StringSyntax(us);
    } else if input[p] == Open(false) || input[p] == Open(true) {
      x := ContainerSound(fp, input, p, fuel, input[p] == Open(true));
    } else {
      var n := NumberSound(input, p);
      AtIsSlice(input, p, NumberChars(n));
      x := NumberSyntax(n);
    }
  }

  lemma {:induction false} ContainerSound(fp: FloatReader, input: bytes, p: nat, fuel: nat, o: bool) returns (x: Syntax)
    requires p < |input| && input[p] == Open(o) && ReadContainer(fp, input, p, fuel, o).Some?
    ensures SyntaxOk(x) && Depth(x) <= fuel && At(input, p, SyntaxText(x))
    ensures ReadContainer(fp, input, p, fuel, o).value.1 == p + |SyntaxText(x)|
    ensures Meaning(fp, x) == Some(ReadContainer(fp, input, p, fuel, o).value.0)
    decreases |input| - p - 1, 3
  {
    hide At, ReadMembers, AreBlank, SkipBlank, ItemsText, ItemsOk, DepthOf, MeaningOf;
    MeaningNil(fp, o);
    NothingBlank();
    var q := SkipBlank(input, p + 1);
    if input[q] == Close(o) {
      SkipBlankSound(input, p + 1);
      var inner := input[p + 1..q];
      x := ContainerSyntax(o, inner, []);
      ContainerAt(input, p, o, inner);
    } else {
      var items := MembersSound(fp, input, p + 1, q, fuel - 1, o, []);
      x := ContainerSyntax(o, [], items);
      ContainerAt(input, p, o, ItemsText(o, items));
      assert [] + MeaningOf(fp, o, items).value == MeaningOf(fp, o, items).value;
    }
  }

  /** One unfolding of the reader. */
  lemma ReadMembersStep(fp: FloatReader, input: bytes, i: nat, fuel: nat, o: bool, acc: seq<Member>)
    requires i < |input|
    ensures ReadMembers(fp, input, i, fuel, o, acc).Some? ==>
      ReadKey(input, i, o).Some? && ReadValue(fp, input, ReadKey(input, i, o).value.1, fuel).Some?
    ensures ReadKey(input, i, o).Some? && ReadValue(fp, input, ReadKey(input, i, o).value.1, fuel).Some? ==>
      var v := ReadValue(fp, input, ReadKey(input, i, o).value.1, fuel).value;
      var ms := acc + [Member(ReadKey(input, i, o).value.0, v.0)];
      var e := SkipBlank(input, v.1);
      if e == |input| then ReadMembers(fp, input, i, fuel, o, acc) == None
      else if input[e] == Close(o) then ReadMembers(fp, input, i, fuel, o, acc) == Some((ms, e + 1))
      else if input[e] != COMMA || SkipBlank(input, e + 1) == |input| then
          ReadMembers(fp, input, i, fuel, o, acc) == None
      else ReadMembers(fp, input, i, fuel, o, acc) == ReadMembers(fp, input, SkipBlank(input, e + 1), fuel, o, ms)
  {
    hide ReadKey, ReadValue, SkipBlank, Close;
  }

  lemma SameKey(o: bool, a: Item, b: Item)
    requires b == a.(value := b.value, after := b.after)
    ensures KeyText(o, a) == KeyText(o, b)
  {
  }

  lemma ItemTextLength(o: bool, it: Item)
    ensures |ItemText(o, it)| == |it.before| + |KeyText(o, it)| + |SyntaxText(it.value)| + |it.after|
  {
  }

  lemma NothingBlank()
    ensures AreBlank([])
  {
  }

  lemma MeaningNil(fp: FloatReader, o: bool)
    ensures ItemsOk(o, []) && MeaningOf(fp, o, []) == Some([]) && DepthOf([]) == 0
  {
  }

  lemma MeaningCons(fp: FloatReader, o: bool, it: Item, rest: seq<Item>)
    requires ItemOk(o, it) && SyntaxOk(it.value) && ItemsOk(o, rest)
    ensures ItemsOk(o, [it] + rest)
    ensures DepthOf([it] + rest) == if Depth(it.value) < DepthOf(rest) then DepthOf(rest) else Depth(it.value)
    ensures MeaningOf(fp, o, [it] + rest).Some? <==> Meaning(fp, it.value).Some? && MeaningOf(fp, o, rest).Some?
    ensures MeaningOf(fp, o, [it] + rest).Some? ==>
      MeaningOf(fp, o, [it] + rest).value ==
          [Member(UnitsValue(it.key), Meaning(fp, it.value).value)] + MeaningOf(fp, o, rest).value
  {
    var items := [it] + rest;
    assert items[0] == it && items[1..] == rest;
  }

  /** One member: an item covering the text from the blanks in front of it to the next comma or bracket. */
  lemma {:induction false} ItemSound(fp: FloatReader, input: bytes, b: nat, i: nat, fuel: nat, o: bool)
    returns (it: Item)
    requires b <= i < |input| && i == SkipBlank(input, b) && ReadKey(input, i, o).Some?
    requires ReadValue(fp, input, ReadKey(input, i, o).value.1, fuel).Some?
    ensures ItemOk(o, it) && SyntaxOk(it.value) && Depth(it.value) <= fuel
    ensures At(input, b, ItemText(o, it))
    ensures ReadKey(input, i, o).value.0 == UnitsValue(it.key)
    ensures var v := ReadValue(fp, input, ReadKey(input, i, o).value.1, fuel).value;
            SkipBlank(input, v.1) == b + |ItemText(o, it)| && Meaning(fp, it.value) == Some(v.0)
    decreases |input| - i, 1
  {
    hide At, ReadValue, ReadKey, KeyText, SyntaxText, UnitsValue, AreBlank, SkipBlank, ItemText, SyntaxOk, Meaning,
         Depth;
    var k := ReadKey(input, i, o).value;
    var v := ReadValue(fp, input, k.1, fuel).value;
    var e := SkipBlank(input, v.1);
    var it0 := KeySound(input, b, i, o);
    var x := ValueSound(fp, input, k.1, fuel);
    SkipBlankSound(input, v.1);
    it := it0.(value := x, after := input[v.1..e]);
    SameKey(o, it0, it);
    ItemAt(input, b, o, it);
    ItemTextLength(o, it);
  }

  lemma {:induction false} MembersSound(fp: FloatReader, input: bytes, b: nat, i: nat, fuel: nat, o: bool,
                                        acc: seq<Member>)
    returns (items: seq<Item>)
    requires b <= i < |input| && i == SkipBlank(input, b) && ReadMembers(fp, input, i, fuel, o, acc).Some?
    ensures items != [] && ItemsOk(o, items) && DepthOf(items) <= fuel && At(input, b, ItemsText(o, items))
    ensures var e := b + |ItemsText(o, items)|;
            ReadMembers(fp, input, i, fuel, o, acc).value.1 == e + 1 && input[e] == Close(o)
    ensures MeaningOf(fp, o, items).Some?
    ensures ReadMembers(fp, input, i, fuel, o, acc).value.0 == acc + MeaningOf(fp, o, items).value
    decreases |input| - i, 2
  {
    hide At, ReadMembers, ReadValue, ReadKey, UnitsValue, SkipBlank, ItemText, ItemsText, MeaningOf, ItemsOk, SyntaxOk,
         Meaning, DepthOf, Depth, ItemOk, Close;
    ReadMembersStep(fp, input, i, fuel, o, acc);
    MeaningNil(fp, o);
    var k := ReadKey(input, i, o).value;
    var v := ReadValue(fp, input, k.1, fuel).value;
    var m := Member(k.0, v.0);
    var e := SkipBlank(input, v.1);
    var it := ItemSound(fp, input, b, i, fuel, o);
    var rest: seq<Item> := [];
    if input[e] != Close(o) {
      rest := MembersSound(fp, input, e + 1, SkipBlank(input, e + 1), fuel, o, acc + [m]);
      Associate(acc, [m], MeaningOf(fp, o, rest).value);
    } else {
      assert [m] + [] == [m];
    }
    items := [it] + rest;
    assert items[1..] == rest;
    MeaningCons(fp, o, it, rest);
    ItemsAt(input, b, o, items);
  }

  // ---------- whatever is grammatical is read ----------

  lemma {:induction false} SkipBlankComplete(input: bytes, i: nat, t: bytes)
    requires AreBlank(t) && At(input, i, t)
    requires i + |t| < |input| ==> !IsBlank(input[i + |t|])
    ensures SkipBlank(input, i) == i + |t|
    decreases |t|
  {
    if t != [] {
      SkipBlankComplete(input, i + 1, t[1..]);
    }
  }

  /** What a value can start with. */
  lemma FirstByte(x: Syntax)
    requires SyntaxOk(x)
    ensures |SyntaxText(x)| > 0
    ensures var c := SyntaxText(x)[0];
            !IsBlank(c) && c != Close(true) && c != Close(false) && c != COMMA
  {
    if x.NumberSyntax? && !x.n.negative {
      assert NumberChars(x.n)[0] == x.n.integer[0];
    }
  }

  lemma ObjectKeyComplete(input: bytes, i: nat, it: Item)
    requires ItemOk(true, it) && At(input, i, KeyText(true, it))
    requires i + |KeyText(true, it)| < |input| && !IsBlank(input[i + |KeyText(true, it)|])
    ensures i < |input| && input[i] == QUOTE && ReadKey(input, i, true).Some?
    ensures ReadKey(input, i, true).value.0 == UnitsValue(it.key)
    ensures At(input, ReadKey(input, i, true).value.1, it.beforeValue)
    ensures ReadKey(input, i, true).value.1 + |it.beforeValue| == i + |KeyText(true, it)|
  {
    hide At, ReadString, UnitsText, QuotedUnits, SkipBlank, AreBlank, UnitOk, UnitsOk, UnitsValue, KeyText;
    var q := i + |QuotedUnits(it.key)|;
    KeyTextAt(input, i, it);
    QuotedComplete(input, i, it.key);
    AtByte(input, q + |it.afterKey|, COLON);
    SkipBlankComplete(input, q, it.afterKey);
  }

  lemma KeyComplete(input: bytes, b: nat, o: bool, it: Item)
    requires ItemOk(o, it) && SyntaxOk(it.value)
    requires At(input, b, it.before) && At(input, b + |it.before|, KeyText(o, it))
    requires At(input, b + |it.before| + |KeyText(o, it)|, SyntaxText(it.value))
    ensures b <= |input| && SkipBlank(input, b) == b + |it.before|
    ensures var i := b + |it.before|;
            && i < |input| && input[i] != Close(o) && ReadKey(input, i, o).Some?
            && ReadKey(input, i, o).value.0 == UnitsValue(it.key)
            && At(input, ReadKey(input, i, o).value.1, it.beforeValue)
            && ReadKey(input, i, o).value.1 + |it.beforeValue| == i + |KeyText(o, it)|
  {
    hide At, ReadString, QuotedUnits, SyntaxText, SyntaxOk, SkipBlank, AreBlank, UnitOk;
    var i := b + |it.before|;
    FirstByte(it.value);
    AtFirst(input, i + |KeyText(o, it)|, SyntaxText(it.value));
    if o {
      ObjectKeyComplete(input, i, it);
    } else {
      NothingAt(input, i);
    }
    SkipBlankComplete(input, b, it.before);
  }

  /** Complete: every derivation with a meaning is read to its end; one without a meaning is not read. */
  lemma {:induction false} ValueComplete(fp: FloatReader, input: bytes, i: nat, blank: bytes, x: Syntax, fuel: nat)
    requires SyntaxOk(x) && Depth(x) <= fuel
    requires AreBlank(blank) && At(input, i, blank) && At(input, i + |blank|, SyntaxText(x))
    requires Stops(input, i + |blank| + |SyntaxText(x)|)
    ensures i <= |input| && (ReadValue(fp, input, i, fuel).Some? <==> Meaning(fp, x).Some?)
    ensures Meaning(fp, x).Some? ==> ReadValue(fp, input, i, fuel).value.0 == Meaning(fp, x).value
    ensures Meaning(fp, x).Some? ==> ReadValue(fp, input, i, fuel).value.1 == i + |blank| + |SyntaxText(x)|
    decreases x, 1
  {
    hide At, ReadString, UnitsText, QuotedUnits, UnitsOk, ReadNumber, NumberChars, NumberOk, Stops, IsFloat, Convert,
         SkipBlank, AreBlank, ReadContainer, ItemsText, UnitsValue, MeaningOf, ItemsOk, DepthOf;
    var p := i + |blank|;
    FirstByte(x);
    AtFirst(input, p, SyntaxText(x));
    SkipBlankComplete(input, i, blank);
    match x
    case NumberSyntax(n) =>
      NumberComplete(input, p, n);
      AtIsSlice(input, p, NumberChars(n));
    case StringSyntax(us) =>
      QuotedComplete(input, p, us);
    case ContainerSyntax(o, inner, items) =>
      ContainerComplete(fp, input, p, x, fuel);
    case _ =>
  }

  lemma {:induction false} ContainerComplete(fp: FloatReader, input: bytes, p: nat, x: Syntax, fuel: nat)
    requires x.ContainerSyntax? && SyntaxOk(x) && Depth(x) <= fuel
    requires At(input, p, SyntaxText(x))
    ensures p < |input| && input[p] == Open(x.isObject)
    ensures ReadContainer(fp, input, p, fuel, x.isObject).Some? <==> Meaning(fp, x).Some?
    ensures Meaning(fp, x).Some? ==> ReadContainer(fp, input, p, fuel, x.isObject).value.0 == Meaning(fp, x).value
    ensures Meaning(fp, x).Some? ==> ReadContainer(fp, input, p, fuel, x.isObject).value.1 == p + |SyntaxText(x)|
    decreases x, 0
  {
    hide At, ReadMembers, AreBlank, SkipBlank, ItemsText, ItemsOk, DepthOf, MeaningOf;
    var o, items := x.isObject, x.items;
    ContainerAt(input, p, o, if items == [] then x.blank else ItemsText(o, items));
    MeaningNil(fp, o);
    if items == [] {
      SkipBlankComplete(input, p + 1, x.blank);
    } else {
      MembersComplete(fp, input, p + 1, items, fuel - 1, o, []);
      if MeaningOf(fp, o, items).Some? {
        assert [] + MeaningOf(fp, o, items).value == MeaningOf(fp, o, items).value;
      }
    }
  }

  /** One item: the key and the value in it are read, up to the next comma or bracket. */
  lemma {:induction false} ItemComplete(fp: FloatReader, input: bytes, b: nat, it: Item, fuel: nat, o: bool)
    requires ItemOk(o, it) && SyntaxOk(it.value) && Depth(it.value) <= fuel
    requires At(input, b, ItemText(o, it))
    requires var e := b + |ItemText(o, it)|;
             e < |input| && (input[e] == COMMA || input[e] == Close(o))
    ensures b <= |input|
    ensures var i := SkipBlank(input, b);
            && i < |input| && input[i] != Close(o) && ReadKey(input, i, o).Some?
            && ReadKey(input, i, o).value.0 == UnitsValue(it.key)
            && var k := ReadKey(input, i, o).value.1;
            && (ReadValue(fp, input, k, fuel).Some? <==> Meaning(fp, it.value).Some?)
            && (Meaning(fp, it.value).Some? ==>
                  && ReadValue(fp, input, k, fuel).value.0 == Meaning(fp, it.value).value
                  && SkipBlank(input, ReadValue(fp, input, k, fuel).value.1) == b + |ItemText(o, it)|)
    decreases it, 1
  {
    hide At, ReadKey, ReadValue, SkipBlank, KeyText, SyntaxText, ItemText, SyntaxOk, Meaning, Depth, UnitsOk,
         UnitsValue;
    ItemAt(input, b, o, it);
    ItemTextLength(o, it);
    KeyComplete(input, b, o, it);
    var i := SkipBlank(input, b);
    var v := i + |KeyText(o, it)| + |SyntaxText(it.value)|;
    if it.after != [] {
      AtFirst(input, v, it.after);
    }
    ValueComplete(fp, input, ReadKey(input, i, o).value.1, it.beforeValue, it.value, fuel);
    SkipBlankComplete(input, v, it.after);
  }

  lemma {:induction false} MembersComplete(fp: FloatReader, input: bytes, b: nat, items: seq<Item>, fuel: nat,
                                           o: bool, acc: seq<Member>)
    requires items != [] && ItemsOk(o, items) && DepthOf(items) <= fuel
    requires At(input, b, ItemsText(o, items))
    requires b + |ItemsText(o, items)| < |input| && input[b + |ItemsText(o, items)|] == Close(o)
    ensures b <= |input|
    ensures var i := SkipBlank(input, b);
            && i < |input| && input[i] != Close(o)
            && (ReadMembers(fp, input, i, fuel, o, acc).Some? <==> MeaningOf(fp, o, items).Some?)
            && (MeaningOf(fp, o, items).Some? ==>
                  && ReadMembers(fp, input, i, fuel, o, acc).value.0 == acc + MeaningOf(fp, o, items).value
                  && ReadMembers(fp, input, i, fuel, o, acc).value.1 == b + |ItemsText(o, items)| + 1)
    decreases items, 1
  {
    hide At, ReadKey, ReadValue, ReadMembers, SkipBlank, ItemText, ItemsText, SyntaxOk, Meaning, MeaningOf, Depth,
         UnitsValue;
    var it, rest := items[0], items[1..];
    assert items == [it] + rest;
    MeaningNil(fp, o);
    MeaningCons(fp, o, it, rest);
    ItemsAt(input, b, o, items);
    ItemComplete(fp, input, b, it, fuel, o);
    ReadMembersStep(fp, input, SkipBlank(input, b), fuel, o, acc);
    if Meaning(fp, it.value).Some? {
      var m := Member(UnitsValue(it.key), Meaning(fp, it.value).value);
      if |items| == 1 {
        assert rest == [] && [m] + [] == [m];
      } else {
        MembersComplete(fp, input, b + |ItemText(o, it)| + 1, rest, fuel, o, acc + [m]);
        if MeaningOf(fp, o, rest).Some? {
          Associate(acc, [m], MeaningOf(fp, o, rest).value);
        }
      }
    }
  }

  /** A text of the grammar that denotes `j`, as the parser's options restrict it. */
  ghost predicate Denotes(fp: FloatReader, input: bytes, maxDepth: nat, trailing: bool, j: Json) {
    exists before: bytes, x: Syntax, after: bytes ::
      IsDocument(fp, input, maxDepth, trailing, j, before, x, after)
  }

  ghost predicate IsDocument(fp: FloatReader, input: bytes, maxDepth: nat, trailing: bool, j: Json, before: bytes,
                             x: Syntax, after: bytes) {
    && AreBlank(before) && AreBlank(after) && (trailing || after == [])
    && SyntaxOk(x) && Depth(x) <= maxDepth && Meaning(fp, x) == Some(j)
    && input == before + SyntaxText(x) + after
  }

  /** The reader accepts exactly the texts of the grammar, and gives them their meaning. */
  lemma ReadsTheGrammar(fp: FloatReader, input: bytes, maxDepth: nat, trailing: bool, j: Json)
    ensures ReadDocument(fp, input, maxDepth, trailing) == Some(j) <==> Denotes(fp, input, maxDepth, trailing, j)
  {
    if ReadDocument(fp, input, maxDepth, trailing) == Some(j) {
      DocumentSound(fp, input, maxDepth, trailing, j);
    }
    if Denotes(fp, input, maxDepth, trailing, j) {
      var before: bytes, x: Syntax, after: bytes :| IsDocument(fp, input, maxDepth, trailing, j, before, x, after);
      DocumentComplete(fp, input, maxDepth, trailing, j, before, x, after);
    }
  }

  lemma DocumentSound(fp: FloatReader, input: bytes, maxDepth: nat, trailing: bool, j: Json)
    requires ReadDocument(fp, input, maxDepth, trailing) == Some(j)
    ensures Denotes(fp, input, maxDepth, trailing, j)
  {
    hide At, ReadValue, SkipBlank, SyntaxText, AreBlank, SyntaxOk, Depth, Meaning;
    var x := ValueSound(fp, input, 0, maxDepth);
    var p := SkipBlank(input, 0);
    var e := ReadValue(fp, input, 0, maxDepth).value.1;
    SkipBlankSound(input, 0);
    SkipBlankSound(input, e);
    AtIsSlice(input, p, SyntaxText(x));
    var before, after := input[0..p], input[e..SkipBlank(input, e)];
    if !trailing {
      after := [];
      NothingBlank();
    }
    assert input == before + input[p..e] + after;
    assert IsDocument(fp, input, maxDepth, trailing, j, before, x, after);
  }

  lemma DocumentComplete(fp: FloatReader, input: bytes, maxDepth: nat, trailing: bool, j: Json,
                         before: bytes, x: Syntax, after: bytes)
    requires IsDocument(fp, input, maxDepth, trailing, j, before, x, after)
    ensures ReadDocument(fp, input, maxDepth, trailing) == Some(j)
  {
    hide At, ReadValue, SkipBlank, SyntaxText, SyntaxOk, Depth, Meaning, AreBlank, ReadDocument;
    DerivationRead(fp, maxDepth, trailing, before, x, after);
  }

  /** What is read is the meaning of any derivation of the text; hence all derivations of a text mean the same. */
  lemma DerivationRead(fp: FloatReader, maxDepth: nat, trailing: bool, before: bytes, x: Syntax, after: bytes)
    requires AreBlank(before) && AreBlank(after) && (trailing || after == [])
    requires SyntaxOk(x) && Depth(x) <= maxDepth
    ensures ReadDocument(fp, before + SyntaxText(x) + after, maxDepth, trailing) == Meaning(fp, x)
  {
    hide At, ReadValue, SkipBlank, SyntaxText, SyntaxOk, Depth, Meaning;
    var t := SyntaxText(x);
    var input := before + t + after;
    var e := |before| + |t|;
    assert input[0..] == input && |input| == e + |after|;
    AtIsSlice(input, 0, input);
    AtConcat(input, 0, before + t, after);
    AtConcat(input, 0, before, t);
    if after != [] {
      AtFirst(input, e, after);
    }
    ValueComplete(fp, input, 0, before, x, maxDepth);
    SkipBlankComplete(input, e, after);
  }

  /** The three literals and the empty containers, byte by byte, with tabs, line ends and spaces around or inside. */
  lemma LiteralsRead(fp: FloatReader, maxDepth: nat, trailing: bool, before: bytes, inner: bytes, after: bytes)
    requires forall b :: b in before || b in inner || b in after ==> b in {9, 10, 13, 32}
    requires trailing || after == []
    ensures ReadDocument(fp, before + [110, 117, 108, 108] + after, maxDepth, trailing) == Some(JNull)
    ensures ReadDocument(fp, before + [116, 114, 117, 101] + after, maxDepth, trailing) == Some(JBool(true))
    ensures ReadDocument(fp, before + [102, 97, 108, 115, 101] + after, maxDepth, trailing) == Some(JBool(false))
    ensures maxDepth > 0 ==>
      && ReadDocument(fp, before + ([91] + inner + [93]) + after, maxDepth, trailing) == Some(JContainer(false, []))
      && ReadDocument(fp, before + ([123] + inner + [125]) + after, maxDepth, trailing) == Some(JContainer(true, []))
  {
    hide ReadDocument;
    WhiteBlank(before);
    WhiteBlank(inner);
    WhiteBlank(after);
    DerivationRead(fp, maxDepth, trailing, before, NullSyntax, after);
    DerivationRead(fp, maxDepth, trailing, before, BoolSyntax(true), after);
    DerivationRead(fp, maxDepth, trailing, before, BoolSyntax(false), after);
    if maxDepth > 0 {
      EmptySyntax(fp, false, inner);
      EmptySyntax(fp, true, inner);
      DerivationRead(fp, maxDepth, trailing, before, ContainerSyntax(false, inner, []), after);
      DerivationRead(fp, maxDepth, trailing, before, ContainerSyntax(true, inner, []), after);
    }
  }

  lemma WhiteBlank(t: bytes)
    requires forall b :: b in t ==> b in {9, 10, 13, 32}
    ensures AreBlank(t)
  {
    assert forall k :: 0 <= k < |t| ==> t[k] in t;
  }

  lemma EmptySyntax(fp: FloatReader, o: bool, inner: bytes)
    requires AreBlank(inner)
    ensures var x := ContainerSyntax(o, inner, []);
            && SyntaxOk(x) && Depth(x) == 1 && Meaning(fp, x) == Some(JContainer(o, []))
            && SyntaxText(x) == [Open(o)] + inner + [Close(o)]
  {
    MeaningNil(fp, o);
  }
}

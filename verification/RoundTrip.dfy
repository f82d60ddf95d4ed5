/** The printer and the reader undo each other, up to the kind of a number. */
module RoundTrip {
  import opened Base
  import opened Json
  import opened Text
  import opened Strings
  import opened Numbers
  import opened Grammar
  import Utf8

  // ---------- what comes back ----------

  /** The texts of all doubles are numbers of the grammar; that of minus zero is one anyway. */
  ghost predicate FloatsSpelled(j: Json)
    decreases j, 0
  {
    (j.JFloat? && j.d.Finite? ==> IsNumberText(NumberText(j))) &&
    (j.JContainer? ==> forall m | m in j.members :: FloatsSpelled(m.value))
  }

  /** A printed value as it is read: each double converted from its text, every integer signed if it fits. */
  function Reread(fp: FloatReader, j: Json): Option<Json>
    decreases j, 0
  {
    match j
    case JFloat(_) => Convert(fp, NumberText(j), HasMark(NumberText(j)))
    case JContainer(o, ms) =>
      var rest :- RereadOf(fp, ms);
      Some(JContainer(o, rest))
    case _ => Some(Normal(j))
  }

  function RereadOf(fp: FloatReader, ms: seq<Member>): Option<seq<Member>>
    decreases ms, 1
  {
    if ms == [] then Some([])
    else
      var v :- Reread(fp, ms[0].value);
      var rest :- RereadOf(fp, ms[1..]);
      Some([Member(ms[0].key, v)] + rest)
  }

  /** A text with a decimal point or an exponent converts to a finite double; any other is an integer of 64 bits. */
  predicate Accepted(fp: FloatReader, t: bytes) {
    if HasMark(t) then fp(t).Some? && fp(t).value != NonFinite
    else if t != [] && t[0] == 45 then INT64_MIN <= -DigitsValue(t[1..]) <= INT64_MAX
    else INT64_MIN <= DigitsValue(t) <= UINT64_MAX
  }

  /** The conversion accepts the text of every double. */
  predicate FloatsAccepted(fp: FloatReader, j: Json)
    decreases j, 0
  {
    (j.JFloat? ==> Accepted(fp, NumberText(j))) &&
    (j.JContainer? ==> forall m | m in j.members :: FloatsAccepted(fp, m.value))
  }

  lemma {:induction false} RereadDecided(fp: FloatReader, j: Json)
    ensures Reread(fp, j).Some? <==> FloatsAccepted(fp, j)
    decreases j, 0
  {
    if j.JContainer? {
      RereadOfDecided(fp, j.members);
    }
  }

  lemma {:induction false} RereadOfDecided(fp: FloatReader, ms: seq<Member>)
    ensures RereadOf(fp, ms).Some? <==> forall m | m in ms :: FloatsAccepted(fp, m.value)
    decreases ms, 1
  {
    hide Reread, FloatsAccepted;
    if ms != [] {
      RereadDecided(fp, ms[0].value);
      RereadOfDecided(fp, ms[1..]);
      assert ms[0] in ms && forall m :: m in ms ==> m == ms[0] || m in ms[1..];
    }
  }

  /** The conversion gives back every double from its text, which is marked as one. */
  predicate FloatsKept(fp: FloatReader, j: Json)
    decreases j, 0
  {
    (j.JFloat? ==> HasMark(NumberText(j)) && fp(NumberText(j)) == Some(j.d) && j.d != NonFinite) &&
    (j.JContainer? ==> forall m | m in j.members :: FloatsKept(fp, m.value))
  }

  /** What comes back is the value itself, up to number kinds, exactly if every double does. */
  lemma {:induction false} RereadKept(fp: FloatReader, j: Json)
    ensures Reread(fp, j) == Some(Normal(j)) <==> FloatsKept(fp, j)
    decreases j, 0
  {
    if j.JContainer? {
      RereadOfKept(fp, j.members);
    }
  }

  lemma {:induction false} RereadOfKept(fp: FloatReader, ms: seq<Member>)
    ensures RereadOf(fp, ms) == Some(NormalOf(ms)) <==> forall m | m in ms :: FloatsKept(fp, m.value)
    decreases ms, 1
  {
    hide Reread, FloatsKept, Normal;
    if ms != [] {
      RereadKept(fp, ms[0].value);
      RereadOfKept(fp, ms[1..]);
      assert ms[0] in ms && forall m :: m in ms ==> m == ms[0] || m in ms[1..];
      if RereadOf(fp, ms).Some? {
        var back := RereadOf(fp, ms).value;
        assert back[0].value == Reread(fp, ms[0].value).value && back[1..] == RereadOf(fp, ms[1..]).value;
        assert NormalOf(ms)[0].value == Normal(ms[0].value) && NormalOf(ms)[1..] == NormalOf(ms[1..]);
      }
    }
  }

  /** Without doubles there is nothing to convert. */
  lemma {:induction false} PlainSpelled(fp: FloatReader, j: Json)
    requires !HasFloat(j)
    ensures FloatsSpelled(j) && FloatsKept(fp, j)
    decreases j
  {
    if j.JContainer? {
      forall m | m in j.members
        ensures FloatsSpelled(m.value) && FloatsKept(fp, m.value)
      {
        PlainSpelled(fp, m.value);
      }
    }
  }

  // ---------- the printer writes derivations ----------

  ghost function SpellValue(j: Json, f: Format, depth: nat): Syntax
    requires Storable(j) && FloatsSpelled(j)
    decreases j, 0
  {
    match j
    case JNull => NullSyntax
    case JBool(b) => BoolSyntax(b)
    case JInt(i) => NumberSyntax(SpellInteger(i))
    case JUInt(u) => NumberSyntax(SpellInteger(u))
    case JFloat(_) =>
      NegativeZeroRight();
      NumberSyntax(NumberOf(NumberText(j)))
    case JString(s) => StringSyntax(Spell(s))
    case JContainer(o, ms) =>
      ContainerSyntax(o, [], SpellMembers(o, ms, f, depth + 1, Break(f, depth)))
  }

  ghost predicate Spellable(o: bool, ms: seq<Member>) {
    AllStorable(o, ms) && forall m | m in ms :: FloatsSpelled(m.value)
  }

  /** The members at `depth`, the last one followed by `tail`. */
  ghost function SpellMembers(o: bool, ms: seq<Member>, f: Format, depth: nat, tail: bytes): (items: seq<Item>)
    requires Spellable(o, ms)
    ensures |items| == |ms|
    decreases ms, 1
  {
    if ms == [] then []
    else
      assert ms[0] in ms;
      [Item(Break(f, depth), if o then Spell(ms[0].key) else [], [], if o && f.pretty then [SPACE] else [],
            SpellValue(ms[0].value, f, depth), if |ms| == 1 then tail else [])]
      + SpellMembers(o, ms[1..], f, depth, tail)
  }

  lemma {:induction false} SpacesBlank(n: nat)
    ensures AreBlank(Spaces(n))
  {
    if n > 0 { SpacesBlank(n - 1); }
  }

  lemma BreakBlank(f: Format, depth: nat)
    ensures AreBlank(Break(f, depth))
  {
    SpacesBlank(depth * f.indent);
  }

  lemma SpellRest(o: bool, ms: seq<Member>)
    requires Spellable(o, ms) && ms != []
    ensures ms[0] in ms && Spellable(o, ms[1..])
    ensures Storable(ms[0].value) && FloatsSpelled(ms[0].value)
    ensures if o then Utf8.Valid(ms[0].key) else ms[0].key == []
  {
  }

  lemma {:induction false} SpellOk(fp: FloatReader, j: Json, f: Format, depth: nat)
    requires Storable(j) && FloatsSpelled(j)
    ensures SyntaxOk(SpellValue(j, f, depth))
    ensures Meaning(fp, SpellValue(j, f, depth)) == Reread(fp, j)
    ensures Depth(SpellValue(j, f, depth)) == Nesting(j)
    decreases j, 0
  {
    hide SpellMembers, MeaningOf, ItemsOk, DepthOf, NestingOf, RereadOf, Break, Spell, UnitsValue, UnitOk, NumberOk,
         NumberChars, Convert, SpellInteger, IntegerText, HasMark, IsFloat, IsNumberText;
    match j
    case JInt(i) => SpellIntegerRight(fp, i);
    case JUInt(u) => SpellIntegerRight(fp, u);
    case JString(s) => SpellRight(s);
    case JFloat(_) =>
      NegativeZeroRight();
      MarkRight(NumberOf(NumberText(j)));
    case JContainer(o, ms) =>
      BreakBlank(f, depth);
      SpellMembersOk(fp, o, ms, f, depth + 1, Break(f, depth));
    case _ =>
  }

  lemma {:induction false} SpellMembersOk(fp: FloatReader, o: bool, ms: seq<Member>, f: Format, depth: nat, tail: bytes)
    requires Spellable(o, ms) && AreBlank(tail)
    ensures var items := SpellMembers(o, ms, f, depth, tail);
            && ItemsOk(o, items) && MeaningOf(fp, o, items) == RereadOf(fp, ms) && DepthOf(items) == NestingOf(ms)
    decreases ms, 1
  {
    MeaningNil(fp, o);
    if ms != [] {
      var m, rest := ms[0], ms[1..];
      SpellRest(o, ms);
      BreakBlank(f, depth);
      SpellOk(fp, m.value, f, depth);
      SpellMembersOk(fp, o, rest, f, depth, tail);
      if o {
        SpellRight(m.key);
      }
      SpellCons(fp, o, ms, f, depth, tail);
    }
  }

  /** The head item, put in front of the rest. */
  lemma SpellCons(fp: FloatReader, o: bool, ms: seq<Member>, f: Format, depth: nat, tail: bytes)
    requires Spellable(o, ms) && ms != [] && AreBlank(tail) && AreBlank(Break(f, depth))
    requires ms[0] in ms && Spellable(o, ms[1..])
    requires var x := SpellValue(ms[0].value, f, depth);
             SyntaxOk(x) && Meaning(fp, x) == Reread(fp, ms[0].value) && Depth(x) == Nesting(ms[0].value)
    requires var items := SpellMembers(o, ms[1..], f, depth, tail);
             ItemsOk(o, items) && MeaningOf(fp, o, items) == RereadOf(fp, ms[1..])
                 && DepthOf(items) == NestingOf(ms[1..])
    requires o ==> Utf8.Valid(ms[0].key) && UnitsOk(Spell(ms[0].key)) && UnitsValue(Spell(ms[0].key)) == ms[0].key
    ensures var items := SpellMembers(o, ms, f, depth, tail);
            && ItemsOk(o, items) && MeaningOf(fp, o, items) == RereadOf(fp, ms) && DepthOf(items) == NestingOf(ms)
  {
    hide SpellValue, SyntaxOk, Meaning, Depth, Nesting, Reread, Storable, FloatsSpelled, Break, UnitOk, Spell;
    var items := SpellMembers(o, ms, f, depth, tail);
    var it, rest := items[0], SpellMembers(o, ms[1..], f, depth, tail);
    assert items == [it] + rest;
    assert UnitsValue(it.key) == ms[0].key;
    MeaningCons(fp, o, it, rest);
  }

  /** The recursive printer's output is the text of the derivation. */
  lemma {:induction false} SpellText(j: Json, f: Format, depth: nat)
    requires Storable(j) && FloatsSpelled(j)
    ensures SyntaxText(SpellValue(j, f, depth)) == Print(j, f, depth)
    decreases j, 0
  {
    hide SpellMembers, PrintMembers, ItemsText, Break, NumberChars, SpellInteger, IntegerText, Spell, Escape, UnitsText;
    match j
    case JInt(i) => SpellIntegerRight(_ => None, i);
    case JUInt(u) => SpellIntegerRight(_ => None, u);
    case JString(s) => SpellRight(s);
    case JContainer(o, ms) =>
      if ms != [] {
        SpellMembersText(o, ms, f, depth + 1, Break(f, depth));
      }
    case _ =>
  }

  lemma {:induction false} SpellMembersText(o: bool, ms: seq<Member>, f: Format, depth: nat, tail: bytes)
    requires Spellable(o, ms) && ms != []
    ensures ItemsText(o, SpellMembers(o, ms, f, depth, tail)) == PrintMembers(o, ms, f, depth, true) + tail
    decreases ms, 1
  {
    hide SpellValue, Print, Prefix, Break, SyntaxText, ItemText, ItemsText, PrintMembers, Storable, FloatsSpelled,
        Spell;
    var m, rest := ms[0], ms[1..];
    SpellRest(o, ms);
    SpellText(m.value, f, depth);
    var items := SpellMembers(o, ms, f, depth, tail);
    var it := items[0];
    var head := Break(f, depth) + Prefix(o, m.key, f) + Print(m.value, f, depth);
    SpellItemText(o, m, f, depth, it);
    FirstMember(o, ms, f, depth);
    ItemsTextStep(o, items);
    if |ms| == 1 {
      assert head + tail + [] == head + tail;
    } else {
      SpellMembersText(o, rest, f, depth, tail);
      assert items[1..] == SpellMembers(o, rest, f, depth, tail);
      Regroup(head, PrintMembers(o, rest, f, depth, true), tail);
    }
  }

  lemma ItemsTextStep(o: bool, items: seq<Item>)
    requires items != []
    ensures ItemsText(o, items) ==
        ItemText(o, items[0]) + (if |items| == 1 then [] else [COMMA] + ItemsText(o, items[1..]))
  {
    hide ItemText;
  }

  lemma Regroup(head: bytes, text: bytes, tail: bytes)
    ensures head + [] + ([COMMA] + (text + tail)) == head + ([COMMA] + text) + tail
  {
  }

  /** The first of some members, and the comma in front of the others. */
  lemma FirstMember(o: bool, ms: seq<Member>, f: Format, depth: nat)
    requires ms != []
    ensures var head := Break(f, depth) + Prefix(o, ms[0].key, f) + Print(ms[0].value, f, depth);
            PrintMembers(o, ms, f, depth, true) ==
              if |ms| == 1 then head else head + ([COMMA] + PrintMembers(o, ms[1..], f, depth, true))
  {
    hide Print, Prefix, Break;
    assert [] + Break(f, depth) == Break(f, depth);
    if |ms| > 1 {
      CommaFirst(o, ms[1..], f, depth);
    }
  }

  lemma SpellItemText(o: bool, m: Member, f: Format, depth: nat, it: Item)
    requires it.before == Break(f, depth)
    requires o ==> Utf8.Valid(m.key) && it.key == Spell(m.key)
    requires o ==> it.afterKey == [] && it.beforeValue == if f.pretty then [SPACE] else []
    requires SyntaxText(it.value) == Print(m.value, f, depth)
    ensures ItemText(o, it) == Break(f, depth) + Prefix(o, m.key, f) + Print(m.value, f, depth) + it.after
  {
    hide Print, Break, SyntaxText, Spell, Escape, UnitsText;
    if o {
      SpellRight(m.key);
      assert KeyText(o, it) == Prefix(o, m.key, f);
    }
    var a, b := Break(f, depth) + Prefix(o, m.key, f), Print(m.value, f, depth);
    Associate(a, b, it.after);
  }

  lemma CommaFirst(o: bool, ms: seq<Member>, f: Format, depth: nat)
    requires ms != []
    ensures PrintMembers(o, ms, f, depth, false) == [COMMA] + PrintMembers(o, ms, f, depth, true)
  {
    hide Print, Prefix, Break;
    var b, p, v, r := Break(f, depth), Prefix(o, ms[0].key, f), Print(ms[0].value, f, depth),
        PrintMembers(o, ms[1..], f, depth, false);
    assert [] + b == b;
    assert [COMMA] + b + p + v + r == [COMMA] + (b + p + v + r);
  }

  // ---------- the laws ----------

  /**
   * Whatever is printed, compact or pretty at any indent, is read back: doubles through the conversion, all else as
   * it was.
   */
  lemma PrintedReadsBack(fp: FloatReader, j: Json, f: Format, maxDepth: nat, trailing: bool)
    requires Storable(j) && FloatsSpelled(j)
    ensures ReadDocument(fp, Print(j, f, 0), maxDepth, trailing) == if Nesting(j) <= maxDepth then Reread(fp, j)
        else None
  {
    hide Print, SyntaxText, SyntaxOk, Depth, Meaning, SpellValue, Reread, Nesting, Storable, FloatsSpelled,
        ReadDocument;
    var x := SpellValue(j, f, 0);
    SpellOk(fp, j, f, 0);
    SpellText(j, f, 0);
    assert Print(j, f, 0) == [] + SyntaxText(x) + [];
    NothingBlank();
    DerivationRead(fp, Nesting(j), trailing, [], x, []);
    var text := Print(j, f, 0);
    if Nesting(j) <= maxDepth {
      DerivationRead(fp, maxDepth, trailing, [], x, []);
    } else if ReadDocument(fp, text, maxDepth, trailing) != None {
      TooDeep(fp, j, text, maxDepth, trailing);
    }
  }

  /** `n` pairs of brackets, one inside the other; and the arrays they denote. */
  function Brackets(n: nat): bytes {
    if n == 0 then [] else [91] + Brackets(n - 1) + [93]
  }

  function Nested(n: nat): Json
    requires n > 0
  {
    JContainer(false, if n == 1 then [] else [Member([], Nested(n - 1))])
  }

  /** They are read exactly if there are no more of them than the depth limit. */
  lemma BracketsRead(fp: FloatReader, n: nat, maxDepth: nat, trailing: bool)
    requires n > 0
    ensures ReadDocument(fp, Brackets(n), maxDepth, trailing) == if n <= maxDepth then Some(Nested(n)) else None
  {
    hide ReadDocument, Print, Reread, Nesting, Storable, FloatsSpelled, Nested;
    NestedRight(fp, n, 0);
    PrintedReadsBack(fp, Nested(n), Format(false, 0), maxDepth, trailing);
  }

  lemma {:induction false} NestedRight(fp: FloatReader, n: nat, depth: nat)
    requires n > 0
    ensures var j := Nested(n);
            && Storable(j) && FloatsSpelled(j) && Nesting(j) == n && Reread(fp, j) == Some(j)
            && Print(j, Format(false, 0), depth) == Brackets(n)
  {
    if n > 1 {
      NestedRight(fp, n - 1, depth + 1);
      OneMember(fp, Nested(n - 1), depth + 1);
    }
  }

  lemma OneMember(fp: FloatReader, j: Json, depth: nat)
    requires Reread(fp, j) == Some(j)
    ensures var ms := [Member([], j)];
            && RereadOf(fp, ms) == Some(ms) && NestingOf(ms) == Nesting(j)
            && PrintMembers(false, ms, Format(false, 0), depth, true) == Print(j, Format(false, 0), depth)
  {
    hide Reread, Nesting, Print;
    var ms := [Member([], j)];
    assert ms[1..] == [] && RereadOf(fp, []) == Some([]) && NestingOf([]) == 0;
    assert ms + [] == ms;
    assert PrintMembers(false, [], Format(false, 0), depth, false) == [];
  }

  /** Nothing deeper is read: the depth limit is exact. */
  lemma TooDeep(fp: FloatReader, j: Json, text: bytes, maxDepth: nat, trailing: bool)
    requires Nesting(j) > maxDepth && ReadDocument(fp, text, Nesting(j), trailing) == Reread(fp, j)
    ensures ReadDocument(fp, text, maxDepth, trailing) == None
  {
    hide ReadDocument, Reread, Nesting;
    if ReadDocument(fp, text, maxDepth, trailing) != None {
      var v := ReadDocument(fp, text, maxDepth, trailing).value;
      DeeperReads(fp, text, maxDepth, Nesting(j), trailing, v);
      RereadKeepsShape(fp, j);
      ReadNesting(fp, text, maxDepth, trailing, v);
    }
  }

  /** Reading back changes no size and no nesting. */
  lemma {:induction false} RereadKeepsShape(fp: FloatReader, j: Json)
    requires Reread(fp, j).Some?
    ensures var r := Reread(fp, j).value;
            Nodes(r) == Nodes(j) && Footprint(r) == Footprint(j) && Nesting(r) == Nesting(j)
    decreases j, 0
  {
    match j
    case JFloat(_) => ConvertStorable(fp, NumberText(j), HasMark(NumberText(j)));
    case JContainer(o, ms) => RereadOfKeepsShape(fp, ms);
    case _ => NormalKeepsShape(j);
  }

  lemma {:induction false} RereadOfKeepsShape(fp: FloatReader, ms: seq<Member>)
    requires RereadOf(fp, ms).Some?
    ensures var r := RereadOf(fp, ms).value;
            NodesOf(r) == NodesOf(ms) && StringsOf(r) == StringsOf(ms) && NestingOf(r) == NestingOf(ms)
    decreases ms, 1
  {
    hide Reread, Nodes, Nesting;
    if ms != [] {
      RereadKeepsShape(fp, ms[0].value);
      RereadOfKeepsShape(fp, ms[1..]);
      assert RereadOf(fp, ms).value[1..] == RereadOf(fp, ms[1..]).value;
    }
  }

  lemma DeeperReads(fp: FloatReader, text: bytes, small: nat, large: nat, trailing: bool, j: Json)
    requires small <= large && ReadDocument(fp, text, small, trailing) == Some(j)
    ensures ReadDocument(fp, text, large, trailing) == Some(j)
  {
    hide ReadDocument, SyntaxOk, SyntaxText, Meaning, Depth, AreBlank;
    ReadsTheGrammar(fp, text, small, trailing, j);
    var before: bytes, x: Syntax, after: bytes :| IsDocument(fp, text, small, trailing, j, before, x, after);
    assert IsDocument(fp, text, large, trailing, j, before, x, after);
    ReadsTheGrammar(fp, text, large, trailing, j);
  }

  lemma ReadNesting(fp: FloatReader, text: bytes, maxDepth: nat, trailing: bool, j: Json)
    requires ReadDocument(fp, text, maxDepth, trailing) == Some(j)
    ensures Nesting(j) <= maxDepth && Storable(j)
  {
    hide ReadDocument, SyntaxOk, SyntaxText, Meaning, Depth, AreBlank, Nesting, Storable;
    ReadsTheGrammar(fp, text, maxDepth, trailing, j);
    var before: bytes, x: Syntax, after: bytes :| IsDocument(fp, text, maxDepth, trailing, j, before, x, after);
    MeaningShape(fp, x);
  }

  /** Whatever a text denotes can be stored, and nests as deep as its derivation. */
  lemma {:induction false} MeaningShape(fp: FloatReader, x: Syntax)
    requires SyntaxOk(x) && Meaning(fp, x).Some?
    ensures Storable(Meaning(fp, x).value) && Nesting(Meaning(fp, x).value) == Depth(x)
    decreases x, 0
  {
    match x
    case NumberSyntax(n) => ConvertStorable(fp, NumberChars(n), IsFloat(n));
    case StringSyntax(us) => UnitsValueValid(us);
    case ContainerSyntax(o, blank, items) => MeaningOfShape(fp, o, items);
    case _ =>
  }

  lemma {:induction false} MeaningOfShape(fp: FloatReader, o: bool, items: seq<Item>)
    requires ItemsOk(o, items) && MeaningOf(fp, o, items).Some?
    ensures AllStorable(o, MeaningOf(fp, o, items).value) && NestingOf(MeaningOf(fp, o, items).value) == DepthOf(items)
    decreases items, 1
  {
    if items != [] {
      MeaningShape(fp, items[0].value);
      MeaningOfShape(fp, o, items[1..]);
      UnitsValueValid(items[0].key);
      var ms := MeaningOf(fp, o, items).value;
      assert ms[1..] == MeaningOf(fp, o, items[1..]).value;
      assert forall m :: m in ms ==> m == ms[0] || m in ms[1..];
    }
  }
}

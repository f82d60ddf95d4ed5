/** What parsing, printing and copying mean for each other. */
module Laws {
  import opened Base
  import opened Json
  import opened Forest
  import opened Dom
  import opened Build
  import opened Spec
  import opened Parse
  import opened CjsonCompat
  import opened Layout
  import opened Text
  import Accounting
  import Clone
  import Grammar
  import Numbers
  import Pretty
  import RoundTrip
  import Runs
  import Serialize
  import Slabs

  // ---------- parsing ----------

  /**
   * Parsing succeeds exactly if the text is derivable and its value fits; then the new tree denotes the text and the
   * memory in use has grown by exactly the value's footprint.
   */
  lemma ParseDecided(s: State, fp: Numbers.FloatReader, input: bytes, maxDepth: nat, trailing: bool, t: State,
                     r: Result<nat>)
    requires Inv(s) && s.valid && maxDepth <= 32
    requires ParsedText(s, fp, input, maxDepth, trailing, false, t, r)
    ensures r.Ok? <==> exists j :: Grammar.Denotes(fp, input, maxDepth, trailing, j) && Footprint(j) <= Remaining(s)
    ensures r.Ok? ==>
      Inv(t) && r.value < |t.cells| && Grammar.Denotes(fp, input, maxDepth, trailing, Denote(t, r.value))
    ensures r.Ok? ==>
      UsedBytes(t) == UsedBytes(s) + Footprint(Denote(t, r.value)) && t.cells[r.value].parent == INVALID_ID
  {
    hide Inv, Plant, Footprint, Grammar.ReadDocument, Grammar.Denotes, FreshRefs, IsSuffix, Denote;
    var document := Grammar.ReadDocument(fp, input, maxDepth, trailing);
    if r.Ok? {
      Runs.ReadPlanted(s, fp, input, maxDepth, trailing, t, r.value);
      Grammar.ReadsTheGrammar(fp, input, maxDepth, trailing, document.value);
      PlantedSize(s, t, document.value);
    }
    if exists j :: Grammar.Denotes(fp, input, maxDepth, trailing, j) && Footprint(j) <= Remaining(s) {
      var j :| Grammar.Denotes(fp, input, maxDepth, trailing, j) && Footprint(j) <= Remaining(s);
      Grammar.ReadsTheGrammar(fp, input, maxDepth, trailing, j);
    }
  }

  lemma PlantedSize(s: State, t: State, j: Json)
    requires Planted(s, t, j)
    ensures UsedBytes(t) == UsedBytes(s) + Footprint(j)
  {
    hide Inv, FreshRefs, IsSuffix, Denote;
  }

  /** A new tree leaves every old tree as it was. */
  lemma PlantedKeepsTrees(s: State, t: State, j: Json, x: nat)
    requires Inv(s) && Planted(s, t, j) && x < |s.cells|
    ensures IsForest(s.cells) && IsForest(t.cells) && x < |t.cells| && Denote(t, x) == Denote(s, x)
    ensures t.cells[x] == s.cells[x]
  {
    hide Inv, FreshRefs, IsSuffix, Denote;
    InvForest(s);
    InvForest(t);
    ExtendsDenotes(s, t, x);
  }

  // ---------- printing, then parsing ----------

  /** Signed and unsigned integers are printed alike. */
  lemma {:induction false} PrintNormal(j: Json, f: Format, depth: nat)
    ensures Print(Normal(j), f, depth) == Print(j, f, depth)
    decreases j, 0
  {
    hide IntegerText, Break;
    if j.JContainer? {
      PrintNormalOf(j.isObject, j.members, f, depth + 1, true);
    }
  }

  lemma {:induction false} PrintNormalOf(o: bool, ms: seq<Member>, f: Format, depth: nat, first: bool)
    ensures PrintMembers(o, NormalOf(ms), f, depth, first) == PrintMembers(o, ms, f, depth, first)
    decreases ms, 1
  {
    hide Print, Prefix, Break, Normal;
    if ms != [] {
      PrintNormal(ms[0].value, f, depth);
      PrintNormalOf(o, ms[1..], f, depth, false);
      assert NormalOf(ms)[0] == Member(ms[0].key, Normal(ms[0].value)) && NormalOf(ms)[1..] == NormalOf(ms[1..]);
    }
  }

  /**
   * Any tree, printed compactly or pretty at any indent, is parsed exactly if it nests within the limit, the conversion
   * accepts its doubles and it fits. Then it is rebuilt: same order, same duplicate keys, same strings, same integers,
   * each double converted from its text. It is the same tree up to number kinds exactly if the conversion gives back
   * its doubles.
   */
  lemma PrintThenParse(s: State, x: nat, f: Format, d: State, fp: Numbers.FloatReader, maxDepth: nat, trailing: bool,
                       t: State, r: Result<nat>)
    requires Inv(s) && x < |s.cells| && RoundTrip.FloatsSpelled(Denote(s, x)) && maxDepth <= MAX_PARSER_DEPTH
    requires Inv(d) && d.valid && ParsedText(d, fp, Print(Denote(s, x), f, 0), maxDepth, trailing, false, t, r)
    ensures r.Ok? <==>
      Nesting(Denote(s, x)) <= maxDepth && RoundTrip.FloatsAccepted(fp, Denote(s, x))
          && Footprint(Denote(s, x)) <= Remaining(d)
    ensures r.Ok? ==> Inv(t) && r.value < |t.cells| && RoundTrip.Reread(fp, Denote(s, x)) == Some(Denote(t, r.value))
    ensures r.Ok? ==> UsedBytes(t) == UsedBytes(d) + Footprint(Denote(s, x)) && t.cells[r.value].parent == INVALID_ID
    ensures r.Ok? ==> (Denote(t, r.value) == Normal(Denote(s, x)) <==> RoundTrip.FloatsKept(fp, Denote(s, x)))
    ensures r.Err? ==> t == d
  {
    hide Inv, Plant, Print, Normal, Nesting, FreshRefs, IsSuffix, Denote, Grammar.ReadDocument, Footprint,
         RoundTrip.FloatsSpelled, RoundTrip.FloatsAccepted, RoundTrip.FloatsKept, RoundTrip.Reread;
    InvForest(s);
    var j := Denote(s, x);
    Accounting.DenoteStorable(s, x);
    RoundTrip.PrintedReadsBack(fp, j, f, maxDepth, trailing);
    RoundTrip.RereadDecided(fp, j);
    RoundTrip.RereadKept(fp, j);
    if RoundTrip.Reread(fp, j).Some? {
      RoundTrip.RereadKeepsShape(fp, j);
    }
    if r.Ok? {
      Runs.ReadPlanted(d, fp, Print(j, f, 0), maxDepth, trailing, t, r.value);
      PlantedSize(d, t, RoundTrip.Reread(fp, j).value);
    }
  }

  /** Without doubles nothing depends on the conversion: the tree comes back whenever it fits, and prints as before. */
  lemma PrintThenParsePlain(s: State, x: nat, f: Format, d: State, fp: Numbers.FloatReader, maxDepth: nat,
                            trailing: bool, t: State, r: Result<nat>)
    requires Inv(s) && x < |s.cells| && !HasFloat(Denote(s, x)) && Nesting(Denote(s, x)) <= maxDepth <= MAX_PARSER_DEPTH
    requires Inv(d) && d.valid && Footprint(Denote(s, x)) <= Remaining(d)
    requires ParsedText(d, fp, Print(Denote(s, x), f, 0), maxDepth, trailing, false, t, r)
    ensures r.Ok? && Inv(t) && r.value < |t.cells| && Denote(t, r.value) == Normal(Denote(s, x))
    ensures UsedBytes(t) == UsedBytes(d) + Footprint(Denote(s, x))
    ensures forall g: Format :: Print(Denote(t, r.value), g, 0) == Print(Denote(s, x), g, 0)
  {
    hide Inv, Print, Normal, HasFloat, Nesting, Denote, Footprint, ParsedText,
         RoundTrip.FloatsSpelled, RoundTrip.FloatsAccepted, RoundTrip.FloatsKept, RoundTrip.Reread;
    InvForest(s);
    var j := Denote(s, x);
    RoundTrip.PlainSpelled(fp, j);
    RoundTrip.RereadKept(fp, j);
    RoundTrip.RereadDecided(fp, j);
    PrintThenParse(s, x, f, d, fp, maxDepth, trailing, t, r);
    forall g: Format
      ensures Print(Normal(j), g, 0) == Print(j, g, 0)
    {
      PrintNormal(j, g, 0);
    }
  }

  /** What the serializer's entry points write has the layout of its format, and reads back as the tree. */
  lemma OutputReadsBack(v: Slabs.Value, f: Format, fp: Numbers.FloatReader, maxDepth: nat, trailing: bool)
    requires v.slab != null && v.slab.Valid() && Serialize.IsLiveValue(v)
    requires RoundTrip.FloatsSpelled(Denote(v.slab.Contents(), v.id))
    ensures var j, text := Denote(v.slab.Contents(), v.id), Serialize.FullText(v, f);
            && Pretty.Laid(text, f, 0)
            && Grammar.ReadDocument(fp, text, maxDepth, trailing) ==
                 if Nesting(j) <= maxDepth then RoundTrip.Reread(fp, j) else None
  {
    hide Inv, Print, Denote, Nesting, Storable, Pretty.Laid, Grammar.ReadDocument, RoundTrip.FloatsSpelled,
         RoundTrip.Reread;
    var s := v.slab.Contents();
    InvForest(s);
    Accounting.DenoteStorable(s, v.id);
    Pretty.PrintLaid(Denote(s, v.id), f);
    RoundTrip.PrintedReadsBack(fp, Denote(s, v.id), f, maxDepth, trailing);
  }

  /** That texts of doubles are numbers is needed: a double spelled `true` would come back as a boolean. */
  lemma SpellingMatters(fp: Numbers.FloatReader, f: Format)
    ensures !RoundTrip.FloatsSpelled(JFloat(Finite(TRUE_TEXT)))
    ensures Grammar.ReadDocument(fp, Print(JFloat(Finite(TRUE_TEXT)), f, 0), 0, false) == Some(JBool(true))
  {
    forall n | Numbers.NumberOk(n)
      ensures Numbers.NumberChars(n) != TRUE_TEXT
    {
      assert Numbers.NumberChars(n)[0] == if n.negative then 45 else n.integer[0];
    }
    RoundTrip.PrintedReadsBack(fp, JBool(true), f, 0, false);
  }

  /** An unsigned number that a signed one could have held. */
  predicate HasSmallUnsigned(j: Json)
    decreases j, 0
  {
    (j.JUInt? && j.u <= INT64_MAX) || (j.JContainer? && exists m | m in j.members :: HasSmallUnsigned(m.value))
  }

  /**
   * The round trip gives back the very same value exactly if it holds no such number; any other differs in that
   * kind only.
   */
  lemma {:induction false} KindsKept(j: Json)
    ensures Normal(j) == j <==> !HasSmallUnsigned(j)
    decreases j, 0
  {
    if j.JContainer? {
      KindsKeptOf(j.members);
    }
  }

  lemma {:induction false} KindsKeptOf(ms: seq<Member>)
    ensures NormalOf(ms) == ms <==> !exists m | m in ms :: HasSmallUnsigned(m.value)
    decreases ms, 1
  {
    hide Normal, HasSmallUnsigned;
    if ms != [] {
      KindsKept(ms[0].value);
      KindsKeptOf(ms[1..]);
      assert ms[0] in ms && forall m :: m in ms ==> m == ms[0] || m in ms[1..];
      assert NormalOf(ms)[0] == Member(ms[0].key, Normal(ms[0].value)) && NormalOf(ms)[1..] == NormalOf(ms[1..]);
      if NormalOf(ms[1..]) == ms[1..] && Normal(ms[0].value) == ms[0].value {
        assert NormalOf(ms) == [ms[0]] + ms[1..] == ms;
      }
    }
  }

  /** Two texts that lose their kind: an unsigned number that fits the signed range, and minus zero. */
  lemma KindLost(fp: Numbers.FloatReader)
    ensures Normal(JUInt(5)) == JInt(5)
    ensures Grammar.ReadDocument(fp, [45, 48], 0, false) == Some(JInt(0))
  {
    var input: bytes := [45, 48];
    assert Numbers.ReadNumber(input, 0) == Some((2, 2));
    assert input[0..2] == input && input[1..] == [48];
    assert Numbers.DigitsValue([48]) == Numbers.DigitsValue([48][..0]) * 10;
  }

  /** An empty slab as large as the source is always large enough. */
  lemma SameSizeSuffices(s: State, x: nat, d: State)
    requires Inv(s) && x < |s.cells| && d.cells == [] && d.heap == [] && d.capacity == s.capacity
    ensures Footprint(Denote(s, x)) <= Remaining(d)
  {
    hide Inv, Denote, Footprint;
    Accounting.FootprintUsed(s, x);
  }

  /** Deeper trees are printed but not parsed: the depth limit is exact. */
  lemma TooDeepToParse(s: State, x: nat, f: Format, d: State, fp: Numbers.FloatReader, maxDepth: nat, trailing: bool,
                       t: State, r: Result<nat>)
    requires Inv(s) && x < |s.cells| && RoundTrip.FloatsSpelled(Denote(s, x)) && maxDepth < Nesting(Denote(s, x))
    requires ParsedText(d, fp, Print(Denote(s, x), f, 0), maxDepth, trailing, false, t, r)
    ensures r.Err? && t == d
  {
    hide Inv, Plant, Print, RoundTrip.FloatsSpelled, Nesting, Denote, Grammar.ReadDocument, Footprint;
    InvForest(s);
    Accounting.DenoteStorable(s, x);
    RoundTrip.PrintedReadsBack(fp, Denote(s, x), f, maxDepth, trailing);
  }

  // ---------- copying ----------

  /**
   * A deep copy is a detached tree for the same value in preorder; it prints alike; the source keeps its value even
   * in the same slab.
   */
  lemma CopyLaw(d: State, s: State, h: Handle, t: State, r: Result<nat>)
    requires Inv(d) && Inv(s) && d.valid && LiveHandle(s, h) && Duplicated(d, s, h, true, t, r)
    ensures r.Ok? <==> Footprint(Denote(s, h.id)) <= Remaining(d)
    ensures r.Ok? ==>
      Inv(t) && r.value < |t.cells| && Denote(t, r.value) == Denote(s, h.id) && t.cells[r.value].parent == INVALID_ID
    ensures r.Ok? ==> LaidOut(t.cells, |d.cells|, Denote(s, h.id)) && |t.cells| == |d.cells| + Nodes(Denote(s, h.id))
    ensures r.Ok? && s == d ==> h.id < |t.cells| && Denote(t, h.id) == Denote(s, h.id)
  {
    hide Inv, FreshRefs, IsSuffix, Denote, LaidOut, Footprint, Clone.CloneTree;
    InvForest(s);
    if r.Ok? {
      CloneLaidOut(d, s, h.id);
      if s == d {
        PlantedKeepsTrees(d, t, Denote(s, h.id), h.id);
      }
    }
  }

  /** A container without its members; any other value as it is. */
  function Emptied(j: Json): Json {
    if j.JContainer? then JContainer(j.isObject, []) else j
  }

  lemma ShallowEmptied(s: State, x: nat)
    requires Inv(s) && x < |s.cells|
    ensures IsForest(s.cells) && Clone.Shallow(s, x) == Emptied(Denote(s, x))
  {
    hide Shape, Acyclic, KeysOk, Disjoint, Members, View;
  }

  /** Without recursion only the node itself is copied. */
  lemma ShallowCopyLaw(d: State, s: State, h: Handle, t: State, r: Result<nat>)
    requires Inv(d) && Inv(s) && d.valid && LiveHandle(s, h) && Duplicated(d, s, h, false, t, r)
    ensures r.Ok? <==> Footprint(Emptied(Denote(s, h.id))) <= Remaining(d)
    ensures r.Ok? ==>
      Inv(t) && r.value < |t.cells| && Denote(t, r.value) == Emptied(Denote(s, h.id)) && t.cells[r.value].kids == []
  {
    hide Inv, FreshRefs, IsSuffix, Denote, Clone.Shallow, Clone.CopiedInfo, Clone.PayloadText;
    InvForest(s);
    Clone.ShallowSize(s, h.id);
    ShallowEmptied(s, h.id);
  }
}

/** Whole lives of a slab: any sequence of operations, successful or failing. */
module Runs {
  import opened Base
  import opened Json
  import opened Forest
  import opened Dom
  import opened Ops
  import opened Build
  import opened Spec
  import opened Parse
  import opened CjsonCompat
  import Containers
  import Grammar
  import Numbers
  import RoundTrip
  import Slabs

  // ---------- operations ----------

  /** The operations that may change a slab. `Copy` takes its source from `from`, which may be the slab itself. */
  datatype Command =
    | Make(j: Json)
    | Add(isObject: bool, parent: Handle, key: bytes, owner: Owner, child: Handle)
    | AddNew(isObject: bool, parent: Handle, key: bytes, j: Json)
    | RemoveKey(parent: Handle, key: bytes, exact: bool)
    | RemoveAt(parent: Handle, index: nat)
    | Read(fp: Numbers.FloatReader, input: bytes, maxDepth: nat, trailing: bool, overlaps: bool)
    | Copy(from: Option<State>, source: Handle, recurse: bool)
    | ClearError
    | Reset

  /** What a command asks of its caller: 64-bit integers, and that another slab is a slab. */
  ghost predicate Proper(c: Command) {
    match c
    case Make(j) => Containers.IsNew(j)
    case Add(o, _, key, _, _) => o || key == []
    case AddNew(o, _, key, j) => (o || key == []) && Containers.IsNew(j)
    case Copy(from, _, _) => from.Some? ==> Inv(from.value)
    case _ => true
  }

  /** The new state and the answer, as the methods' postconditions state them. */
  ghost predicate Step(s: State, c: Command, t: State, r: Result<nat>)
    requires Inv(s) && Proper(c)
  {
    match c
    case Make(j) =>
      && Made(s, j, t, r.Ok?) && (if r.Ok? then r.value == |s.cells| else r.error.code == MakeCode(s, j))
    case Add(o, parent, key, owner, child) => Attached(s, o, parent, key, owner, child, t, r)
    case AddNew(o, parent, key, j) => Built(s, o, parent, key, j, t, r)
    case RemoveKey(parent, key, exact) =>
      RemovedKey(s, parent, key, exact, t, r) && (r.Ok? ==> r.value == FoundKey(s, parent, key, exact))
    case RemoveAt(parent, index) =>
      RemovedAt(s, parent, index, t, r) && (r.Ok? ==> r.value == FoundAt(s, parent, index))
    case Read(fp, input, maxDepth, trailing, overlaps) => ParsedText(s, fp, input, maxDepth, trailing, overlaps, t, r)
    case Copy(from, source, recurse) => Duplicated(s, Source(s, from), source, recurse, t, r)
    case ClearError => r.Ok? && t == s.(error := NO_ERROR)
    case Reset => r.Ok? && t == State(s.valid, s.capacity, [], [], Slabs.NextGeneration(s.generation), NO_ERROR)
  }

  function Source(s: State, from: Option<State>): State {
    if from.Some? then from.value else s
  }

  // ---------- what every operation keeps ----------

  /** The contents of a node that no operation changes; its key and its links may change. */
  function Fixed(info: Info): Info {
    info.(key := NO_STRING, keyFlags := 0)
  }

  /** Every node is still there with its contents, and every string byte. */
  ghost predicate Keeps(s: State, t: State) {
    && |s.cells| <= |t.cells| && IsSuffix(s.heap, t.heap)
    && t.capacity == s.capacity && t.valid == s.valid && t.generation == s.generation
    && forall i :: 0 <= i < |s.cells| ==> Fixed(t.cells[i].info) == Fixed(s.cells[i].info)
  }

  lemma KeepsTransitive(s: State, t: State, u: State)
    requires Keeps(s, t) && Keeps(t, u)
    ensures Keeps(s, u)
  {
    SuffixTransitive(s.heap, t.heap, u.heap);
  }

  lemma ExtendsKeeps(s: State, t: State)
    requires Extends(s, t)
    ensures Keeps(s, t)
  {
  }

  lemma ErrorKeeps(s: State, e: Error)
    requires Inv(s)
    ensures Inv(s.(error := e)) && Keeps(s, s.(error := e))
  {
    hide Inv;
    SuffixSelf(s.heap);
    Slabs.ErrorIrrelevant(s, e);
  }

  lemma AttachKeeps(s: State, p: nat, c: nat, key: StringRef, keyFlags: nat)
    requires CanAttach(s, p, c)
    ensures Keeps(s, AttachTo(s, p, c, key, keyFlags))
  {
    hide Attach, IsAncestor;
    SuffixSelf(s.heap);
    AttachCells(s, p, c, key, keyFlags);
  }

  lemma LinkedKeeps(s: State, o: bool, parent: Handle, key: bytes, child: Handle)
    requires Inv(s) && (o || key == []) && Refusal(s, o, parent, key, Own, child).None?
    ensures Inv(Linked(s, o, parent.id, child.id, key)) && Keeps(s, Linked(s, o, parent.id, child.id, key))
  {
    hide Inv, IsSuffix, Refusal, PlantKey, KeyRef, KeyFlags, CanAttach, KeyFits, Attach, Keeps;
    RefusalFacts(s, o, parent, key, child);
    LinkedRight(s, o, parent, key, child);
    LinkedFits(s, o, parent, key, child);
    var u := PlantKey(s, o, key);
    ExtendsKeeps(s, u);
    AttachKeeps(u, parent.id, child.id, KeyRef(s, o, key), KeyFlags(o, key));
    KeepsTransitive(s, u, AttachTo(u, parent.id, child.id, KeyRef(s, o, key), KeyFlags(o, key)));
  }

  lemma DetachKeeps(s: State, p: nat, k: nat)
    requires Inv(s) && p < |s.cells| && k < |s.cells[p].kids|
    ensures s.cells[p].kids[k] < |s.cells| && Inv(DetachFrom(s, p, k)) && Keeps(s, DetachFrom(s, p, k))
  {
    hide Detach, InfosOk, KeysOk, Disjoint, Acyclic, Shape;
    SuffixSelf(s.heap);
    UnlinkedRight(s, p, k);
    DetachCells(s.cells, p, k);
  }

  lemma PlantedKeeps(s: State, t: State, j: Json)
    requires Planted(s, t, j)
    ensures Inv(t) && Keeps(s, t) && t.error == s.error
  {
    hide Inv, IsSuffix, FreshRefs;
    ExtendsKeeps(s, t);
  }

  lemma AddKeeps(s: State, o: bool, parent: Handle, key: bytes, owner: Owner, child: Handle, t: State, r: Result<nat>)
    requires Inv(s) && (o || key == []) && Attached(s, o, parent, key, owner, child, t, r)
    ensures Inv(t) && Keeps(s, t) && (r.Err? ==> t == s.(error := t.error))
    ensures s.error.code != NoError ==> r == Err(s.error) && t == s
    ensures r.Ok? ==> t.error == s.error
  {
    hide Inv, Keeps, Linked, Refusal;
    if r.Ok? {
      OwnOnly(s, o, parent, key, owner, child);
      LinkedKeeps(s, o, parent, key, child);
      RefusalFacts(s, o, parent, key, child);
      LinkedError(s, o, parent.id, child.id, key);
    } else {
      ErrorKeeps(s, r.error);
    }
    StickyRefusal(s, o, parent, key, owner, child);
  }

  lemma LinkedError(s: State, o: bool, p: nat, c: nat, key: bytes)
    requires p < |s.cells| && c < |s.cells|
    ensures Linked(s, o, p, c, key).error == s.error
  {
    hide Attach, KeyFlags, KeyRef;
  }

  /** Only children of the slab itself are ever accepted. */
  lemma OwnOnly(s: State, o: bool, parent: Handle, key: bytes, owner: Owner, child: Handle)
    requires Refusal(s, o, parent, key, owner, child).None?
    ensures owner == Own
  {
    hide IsAncestor;
  }

  lemma StickyRefusal(s: State, o: bool, parent: Handle, key: bytes, owner: Owner, child: Handle)
    ensures s.error.code != NoError ==> Refusal(s, o, parent, key, owner, child) == Some(s.error.code)
  {
    hide IsAncestor;
  }

  lemma BuiltKeeps(s: State, o: bool, parent: Handle, key: bytes, j: Json, t: State, r: Result<nat>)
    requires Inv(s) && (o || key == []) && Built(s, o, parent, key, j, t, r)
    ensures Inv(t) && Keeps(s, t) && (r.Err? ==> t == s.(error := t.error))
    ensures s.error.code != NoError ==> r == Err(s.error) && t == s
    ensures r.Ok? ==> t.error == s.error
  {
    hide Inv, Keeps, Linked, Refusal, Plant, Planted, Storable, Footprint;
    if r.Ok? {
      var u, c := Plant(s, j), Handle(|s.cells|, s.generation);
      BuiltDecided(s, o, parent, key, j);
      PlantedKeeps(s, u, j);
      RefusalFacts(u, o, parent, key, c);
      LinkedKeeps(u, o, parent, key, c);
      KeepsTransitive(s, u, Linked(u, o, parent.id, c.id, key));
      LinkedError(u, o, parent.id, c.id, key);
    } else {
      ErrorKeeps(s, r.error);
    }
  }

  lemma UnlinkedKeeps(s: State, p: nat, k: nat, t: State, r: Result<nat>)
    requires Inv(s) && p < |s.cells| && Unlinked(s, p, k, t, r)
    ensures Inv(t) && Keeps(s, t) && t.error == s.error && (r.Err? ==> t == s)
  {
    hide Inv, Detach;
    if r.Ok? {
      DetachKeeps(s, p, k);
    } else {
      SuffixSelf(s.heap);
    }
  }

  lemma SameKeeps(s: State)
    ensures Keeps(s, s)
  {
    SuffixSelf(s.heap);
  }

  lemma ReadKeeps(s: State, c: Command, t: State, r: Result<nat>)
    requires Inv(s) && c.Read? && ParsedText(s, c.fp, c.input, c.maxDepth, c.trailing, c.overlaps, t, r)
    ensures Inv(t) && Keeps(s, t) && t.error == s.error && (r.Err? ==> t == s)
  {
    hide Inv, Keeps, Plant, Planted, Storable, Footprint;
    SameKeeps(s);
    if r.Ok? {
      ReadPlanted(s, c.fp, c.input, c.maxDepth, c.trailing, t, r.value);
      PlantedKeeps(s, t, Grammar.ReadDocument(c.fp, c.input, c.maxDepth, c.trailing).value);
    }
  }

  /** A successful parse plants what the text denotes. */
  lemma ReadPlanted(s: State, fp: Numbers.FloatReader, input: bytes, maxDepth: nat, trailing: bool, t: State, id: nat)
    requires Inv(s) && ParsedText(s, fp, input, maxDepth, trailing, false, t, Ok(id))
    ensures Grammar.ReadDocument(fp, input, maxDepth, trailing).Some?
    ensures Planted(s, t, Grammar.ReadDocument(fp, input, maxDepth, trailing).value) && id == |s.cells|
  {
    hide Inv, Plant, Planted, Storable, Footprint, Grammar.ReadDocument;
    var j := Grammar.ReadDocument(fp, input, maxDepth, trailing).value;
    RoundTrip.ReadNesting(fp, input, maxDepth, trailing, j);
    PlantRight(s, j);
  }

  /**
   * Every operation, successful or not, keeps the invariant; unless it is a reset it keeps every node and every
   * string.
   */
  lemma StepKeeps(s: State, c: Command, t: State, r: Result<nat>)
    requires Inv(s) && Proper(c) && Step(s, c, t, r)
    ensures Inv(t) && t.capacity == s.capacity && t.valid == s.valid
    ensures !c.Reset? ==> Keeps(s, t)
    ensures c.Reset? ==> t.generation == Slabs.NextGeneration(s.generation)
    ensures r.Err? ==> t == s.(error := t.error)
    ensures !c.Reset? && !c.ClearError? && s.error.code != NoError ==> t.error == s.error
  {
    hide Inv, Keeps, Attached, Built, RemovedKey, RemovedAt, ParsedText, Duplicated, Planted, Room;
    match c {
      case Make(j) =>
        SameKeeps(s);
        if r.Ok? {
          PlantedKeeps(s, t, j);
        }
      case Add(o, parent, key, owner, child) => AddKeeps(s, o, parent, key, owner, child, t, r);
      case AddNew(o, parent, key, j) => BuiltKeeps(s, o, parent, key, j, t, r);
      case RemoveKey(parent, key, exact) => RemoveKeyKeeps(s, parent, key, exact, t, r);
      case RemoveAt(parent, index) => RemoveAtKeeps(s, parent, index, t, r);
      case Read(fp, input, maxDepth, trailing, overlaps) => ReadKeeps(s, c, t, r);
      case Copy(from, source, recurse) => CopyKeeps(s, Source(s, from), source, recurse, t, r);
      case ClearError => ErrorKeeps(s, NO_ERROR);
      case Reset => ResetKeeps(s);
    }
    if !c.Reset? {
      KeepsSlab(s, t);
    }
  }

  lemma KeepsSlab(s: State, t: State)
    requires Keeps(s, t)
    ensures t.capacity == s.capacity && t.valid == s.valid && t.generation == s.generation
  {
    hide IsSuffix;
  }

  lemma RemoveKeyKeeps(s: State, parent: Handle, key: bytes, exact: bool, t: State, r: Result<nat>)
    requires Inv(s) && RemovedKey(s, parent, key, exact, t, r)
    ensures Inv(t) && Keeps(s, t) && t.error == s.error && (r.Err? ==> t == s)
  {
    hide Inv, Keeps, Unlinked, FirstMatch, Members;
    InvForest(s);
    SameKeeps(s);
    if LiveHandle(s, parent) && s.cells[parent.id].info.kind == Object {
      UnlinkedKeeps(s, parent.id, FirstMatch(Members(s, parent.id, 0), key, exact, 0), t, r);
    }
  }

  lemma RemoveAtKeeps(s: State, parent: Handle, index: nat, t: State, r: Result<nat>)
    requires Inv(s) && RemovedAt(s, parent, index, t, r)
    ensures Inv(t) && Keeps(s, t) && t.error == s.error && (r.Err? ==> t == s)
  {
    hide Inv, Keeps, Unlinked;
    SameKeeps(s);
    if LiveHandle(s, parent) && s.cells[parent.id].info.kind == Array {
      UnlinkedKeeps(s, parent.id, index, t, r);
    }
  }

  lemma CopyKeeps(d: State, s: State, h: Handle, recurse: bool, t: State, r: Result<nat>)
    requires Inv(d) && Inv(s) && Duplicated(d, s, h, recurse, t, r)
    ensures Inv(t) && Keeps(d, t) && t.error == d.error && (r.Err? ==> t == d)
  {
    hide Inv, Keeps, Planted, CopiedValue, CopiedState, Footprint;
    InvForest(s);
    SameKeeps(d);
    if r.Ok? {
      PlantedKeeps(d, t, CopiedValue(s, h.id, recurse));
    }
  }

  lemma ResetKeeps(s: State)
    requires Inv(s)
    ensures Inv(State(s.valid, s.capacity, [], [], Slabs.NextGeneration(s.generation), NO_ERROR))
  {
    hide IsForest, InfosOk, KeysOk, Disjoint;
    Slabs.EmptyInv(State(s.valid, s.capacity, [], [], Slabs.NextGeneration(s.generation), NO_ERROR));
  }

  // ---------- runs ----------

  /** One operation of a run: what was asked, what was answered, and what the slab held afterwards. */
  datatype Event = Event(command: Command, answer: Result<nat>, after: State)

  /** A run of operations from `s` on. */
  ghost predicate IsRun(s: State, run: seq<Event>)
    requires Inv(s)
    decreases |run|
  {
    run == [] ||
    (var e := run[0];
     && Proper(e.command) && Step(s, e.command, e.after, e.answer)
     && (StepKeeps(s, e.command, e.after, e.answer);
         IsRun(e.after, run[1..])))
  }

  function End(s: State, run: seq<Event>): State {
    if run == [] then s else run[|run| - 1].after
  }

  predicate NoReset(run: seq<Event>) {
    forall i :: 0 <= i < |run| ==> !run[i].command.Reset?
  }

  function Resets(run: seq<Event>): nat {
    if run == [] then 0 else (if run[0].command.Reset? then 1 else 0) + Resets(run[1..])
  }

  /** One operation, then the rest. */
  lemma RunStep(s: State, run: seq<Event>)
    requires Inv(s) && IsRun(s, run) && run != []
    ensures Proper(run[0].command) && Step(s, run[0].command, run[0].after, run[0].answer) && Inv(run[0].after)
    ensures IsRun(run[0].after, run[1..])
    ensures End(s, run) == End(run[0].after, run[1..])
  {
    hide Inv, Step;
    StepKeeps(s, run[0].command, run[0].after, run[0].answer);
  }

  /** The invariant holds after every operation of every run. */
  lemma {:induction false} RunInv(s: State, run: seq<Event>, i: nat)
    requires Inv(s) && IsRun(s, run) && i < |run|
    ensures Inv(run[i].after) && run[i].after.capacity == s.capacity && run[i].after.valid == s.valid
    ensures Inv(End(s, run))
    decreases |run|
  {
    hide Inv, Step, IsRun;
    RunStep(s, run);
    StepKeeps(s, run[0].command, run[0].after, run[0].answer);
    if i > 0 {
      RunInv(run[0].after, run[1..], i - 1);
      assert run[1..][i - 1] == run[i];
    } else if |run| > 1 {
      RunInv(run[0].after, run[1..], 0);
    }
  }

  /** What the invariant says about memory: the two ends never meet, and every 16-bit field is wide enough. */
  lemma Memory(s: State, i: nat, isKey: bool)
    requires Inv(s)
    ensures 24 * |s.cells| + |s.heap| == UsedBytes(s) <= s.capacity <= 65535
    ensures |s.cells| <= 2730 < INVALID_ID && |s.heap| <= 65535
    ensures i < |s.cells| ==>
      var r := Ref(s.cells[i], isKey);
      r.length > 0 ==> 24 * |s.cells| <= r.offset && 0 < r.length && r.offset + r.length <= s.capacity <= 65535
  {
    hide IsForest, Disjoint;
    if i < |s.cells| {
      RefLive(s, i, isKey);
    }
  }

  // ---------- the sticky error ----------

  predicate IsAdd(c: Command) {
    c.Add? || c.AddNew?
  }

  predicate NoClearing(run: seq<Event>) {
    forall i :: 0 <= i < |run| ==> !run[i].command.Reset? && !run[i].command.ClearError?
  }

  /** Once an error is recorded, every later add is answered with it and changes nothing, until it is cleared. */
  lemma {:induction false} ErrorSticks(s: State, run: seq<Event>, i: nat)
    requires Inv(s) && IsRun(s, run) && s.error.code != NoError && NoClearing(run) && i < |run|
    ensures run[i].after.error == s.error
    ensures IsAdd(run[i].command) ==>
      run[i].answer == Err(s.error) && run[i].after == if i == 0 then s else run[i - 1].after
    decreases i
  {
    hide Inv, Keeps, Step, IsRun;
    var e, rest := run[0], run[1..];
    RunStep(s, run);
    StepKeeps(s, e.command, e.after, e.answer);
    assert !e.command.Reset? && !e.command.ClearError?;
    if i == 0 {
      if IsAdd(e.command) {
        AddSticks(s, e.command, e.after, e.answer);
      }
    } else {
      assert NoClearing(rest) by {
        assert forall k :: 0 <= k < |rest| ==> rest[k] == run[k + 1];
      }
      ErrorSticks(e.after, rest, i - 1);
      assert rest[i - 1] == run[i];
    }
  }

  lemma AddSticks(s: State, c: Command, t: State, r: Result<nat>)
    requires Inv(s) && Proper(c) && Step(s, c, t, r) && IsAdd(c) && s.error.code != NoError
    ensures r == Err(s.error) && t == s
  {
    hide Inv, Keeps, Attached, Built;
    if c.Add? {
      AddKeeps(s, c.isObject, c.parent, c.key, c.owner, c.child, t, r);
    } else {
      BuiltKeeps(s, c.isObject, c.parent, c.key, c.j, t, r);
    }
  }

  // ---------- failures ----------

  /** A failed operation leaves every node, every string byte and every tree as it was. */
  lemma FailureChangesNothing(s: State, c: Command, t: State, r: Result<nat>, x: nat)
    requires Inv(s) && Proper(c) && Step(s, c, t, r) && r.Err?
    ensures t.cells == s.cells && t.heap == s.heap && t.generation == s.generation
    ensures x < |s.cells| ==> IsForest(t.cells) && IsForest(s.cells) && Denote(t, x) == Denote(s, x)
  {
    hide Inv, Keeps, Step, Denote;
    StepKeeps(s, c, t, r);
    InvForest(s);
    SuffixSelf(s.heap);
    if x < |s.cells| {
      Slabs.ErrorIrrelevant(s, t.error);
      ExtendsDenotes(s.(error := t.error), t, x);
      SameTrees(s, t.error, x);
    }
  }

  lemma SameTrees(s: State, e: Error, x: nat)
    requires Inv(s) && x < |s.cells|
    ensures Denote(s.(error := e), x) == Denote(s, x)
  {
    hide InfosOk, KeysOk, Disjoint, View, Live, Acyclic, IsRank, Leaf;
    var d, t := Below(|s.cells|), s.(error := e);
    SameHeap(s, t);
    forall y | y in d
      ensures Leaf(s, s.cells[y].info) == Leaf(t, t.cells[y].info)
    {
      LeafIgnoresKey(s, t, s.cells[y].info, s.cells[y].info.key, s.cells[y].info.keyFlags);
    }
    assert SameOn(s, t, d);
    DenoteFrame(s, t, d, x);
  }

  // ---------- handles ----------

  lemma {:induction false} RunKeeps(s: State, run: seq<Event>)
    requires Inv(s) && IsRun(s, run) && NoReset(run)
    ensures Keeps(s, End(s, run))
    decreases |run|
  {
    hide Inv, Keeps, Step, IsRun;
    if run == [] {
      SameKeeps(s);
    } else {
      var e, rest := run[0], run[1..];
      RunStep(s, run);
      StepKeeps(s, e.command, e.after, e.answer);
      assert !e.command.Reset?;
      assert NoReset(rest) by {
        assert forall k :: 0 <= k < |rest| ==> rest[k] == run[k + 1];
      }
      RunKeeps(e.after, rest);
      KeepsTransitive(s, e.after, End(s, run));
    }
  }

  /** Until a reset, a live string reference shows the same bytes. */
  lemma ReferenceStable(s: State, run: seq<Event>, ref: StringRef)
    requires Inv(s) && IsRun(s, run) && NoReset(run) && Live(s, ref)
    ensures Live(End(s, run), ref) && View(End(s, run), ref) == View(s, ref)
  {
    hide Inv, IsRun, View, Live, IsSuffix;
    RunKeeps(s, run);
    ViewStable(s, End(s, run), ref);
  }

  /** Until a reset, a live handle stays live and names the same node: same kind, same flags, same scalar or string. */
  lemma HandleStable(s: State, run: seq<Event>, h: Handle)
    requires Inv(s) && IsRun(s, run) && NoReset(run) && LiveHandle(s, h)
    ensures var t := End(s, run);
            && LiveHandle(t, h) && Fixed(t.cells[h.id].info) == Fixed(s.cells[h.id].info)
            && t.cells[h.id].info.kind == s.cells[h.id].info.kind
            && (!IsContainer(s.cells[h.id].info.kind) ==> Leaf(t, t.cells[h.id].info) == Leaf(s, s.cells[h.id].info))
  {
    hide IsForest, Disjoint, IsRun, View, Live, IsSuffix;
    RunKeeps(s, run);
    RefLive(s, h.id, false);
    ViewStable(s, End(s, run), Ref(s.cells[h.id], false));
  }

  /** Generations run through 1 to 2^32 - 1 and start over. */
  function Generation(g: nat, k: nat): nat {
    (g - 1 + k) % 0xFFFF_FFFF + 1
  }

  lemma NextIsGeneration(g: nat)
    requires 1 <= g < 0x1_0000_0000
    ensures Slabs.NextGeneration(g) == Generation(g, 1)
  {
  }

  lemma GenerationAdds(g: nat, k: nat)
    requires 1 <= g < 0x1_0000_0000
    ensures 1 <= Generation(g, k) < 0x1_0000_0000
    ensures Generation(Generation(g, 1), k) == Generation(g, k + 1)
  {
  }

  lemma {:induction false} RunGeneration(s: State, run: seq<Event>)
    requires Inv(s) && IsRun(s, run)
    ensures End(s, run).generation == Generation(s.generation, Resets(run))
    decreases |run|
  {
    hide Inv, Keeps, Step, IsRun, Generation;
    GenerationOk(s);
    if run == [] {
      GenerationZero(s.generation);
    } else {
      var e, rest := run[0], run[1..];
      RunStep(s, run);
      StepKeeps(s, e.command, e.after, e.answer);
      RunGeneration(e.after, rest);
      if e.command.Reset? {
        NextIsGeneration(s.generation);
        GenerationAdds(s.generation, Resets(rest));
      } else {
        KeepsSlab(s, e.after);
      }
    }
  }

  lemma GenerationZero(g: nat)
    requires 1 <= g < 0x1_0000_0000
    ensures Generation(g, 0) == g
  {
  }

  lemma GenerationOk(s: State)
    requires Inv(s)
    ensures 1 <= s.generation < 0x1_0000_0000
  {
    hide IsForest, InfosOk, KeysOk, Disjoint;
  }

  lemma OtherGeneration(g: nat, k: nat)
    requires 1 <= g < 0x1_0000_0000 && 0 < k < 0xFFFF_FFFF
    ensures Generation(g, k) != g
  {
  }

  /** After any number of resets from 1 to 2^32 - 2, no handle from before is accepted. */
  lemma HandleRejected(s: State, run: seq<Event>, h: Handle)
    requires Inv(s) && IsRun(s, run) && LiveHandle(s, h) && 0 < Resets(run) < 0xFFFF_FFFF
    ensures !LiveHandle(End(s, run), h)
  {
    hide Inv, IsRun, Generation;
    RunGeneration(s, run);
    GenerationOk(s);
    OtherGeneration(s.generation, Resets(run));
  }
}

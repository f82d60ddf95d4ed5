/** What a caller learns from the answer of an operation, in terms of members, values and bytes alone. */
module Answers {
  import opened Base
  import opened Json
  import opened Forest
  import opened Dom
  import opened Ops
  import opened Build
  import opened Spec
  import opened Runs
  import Containers
  import Utf8

  /** The handle names an object, or an array. */
  predicate Names(s: State, h: Handle, o: bool) {
    LiveHandle(s, h) && s.cells[h.id].info.kind == (if o then Object else Array)
  }

  /** The handle names a node that hangs below no container. */
  predicate NamesRoot(s: State, h: Handle) {
    LiveHandle(s, h) && s.cells[h.id].parent == INVALID_ID
  }

  // ---------- make ----------

  /** What each code says about a value that could not be made. */
  predicate Explains(s: State, j: Json, code: ErrorCode) {
    match code
    case NonFiniteNumber => j == JFloat(NonFinite)
    case InvalidUtf8 => j.JString? && !Utf8.Valid(j.s)
    case InvalidArgument => !s.valid
    case OutOfMemory => s.valid && UsedBytes(s) + 24 > s.capacity
    case StringCapacityExceeded => s.valid && j.JString? && UsedBytes(s) + 24 + |j.s| > s.capacity
    case _ => false
  }

  /** A value is made exactly if it can be stored and its footprint is free; then it stands alone and uses just that. */
  lemma MakeAnswer(s: State, j: Json, t: State, r: Result<nat>)
    requires Inv(s) && Proper(Make(j)) && Step(s, Make(j), t, r)
    ensures r.Ok? <==> s.valid && Storable(j) && UsedBytes(s) + Footprint(j) <= s.capacity
    ensures r.Ok? ==>
      Inv(t) && NamesRoot(t, Handle(r.value, t.generation)) && r.value == |s.cells| && Denote(t, r.value) == j
          && UsedBytes(t) == UsedBytes(s) + Footprint(j)
    ensures r.Err? ==> t == s && Explains(s, j, r.error.code)
  {
    hide Inv, FreshRefs, IsSuffix, Denote, Plant;
    if r.Ok? {
      MadeRight(s, j);
    } else {
      CodeExplains(s, j);
    }
  }

  lemma CodeExplains(s: State, j: Json)
    requires Inv(s) && Containers.IsNew(j) && !Room(s, j)
    ensures Explains(s, j, MakeCode(s, j))
  {
    hide IsForest, InfosOk, KeysOk, Disjoint, Plant, Planted, Utf8.Valid;
    if j.JString? {
      assert Footprint(j) == 24 + |j.s|;
    } else {
      Containers.CreateCode(s, j);
    }
  }

  // ---------- add ----------

  /** Nothing but the error differs, and there is one. */
  predicate JustRecorded(s: State, t: State, r: Result<nat>) {
    r.Err? && r.error.code != NoError && t == s.(error := r.error)
  }

  /**
   * An existing value is taken exactly if no error is recorded, it is a root of the same slab, linking it leaves the
   * forest acyclic, and the key can be stored. It is then the last member, and no tree without the container changes.
   */
  lemma AddAnswer(s: State, o: bool, parent: Handle, key: bytes, owner: Owner, child: Handle, t: State,
                  r: Result<nat>, x: nat)
    requires Inv(s) && (o || key == []) && Attached(s, o, parent, key, owner, child, t, r)
    ensures r.Ok? <==>
      && s.error.code == NoError && Names(s, parent, o) && owner == Own && NamesRoot(s, child)
      && Acyclic(AttachTo(s, parent.id, child.id, NO_STRING, 0).cells)
      && (o ==> Utf8.Valid(key) && UsedBytes(s) + |key| <= s.capacity)
    ensures r.Ok? ==>
      && Inv(t) && parent.id < |t.cells| && child.id < |t.cells| && t.cells[child.id].parent == parent.id
      && Members(t, parent.id, 0) == Members(s, parent.id, 0) + [Member(key, Denote(s, child.id))]
      && UsedBytes(t) == UsedBytes(s) + |key| && t.error == s.error
    ensures r.Ok? && x < |s.cells| && !IsAncestor(s.cells, x, parent.id) ==>
      x < |t.cells| && Denote(t, x) == Denote(s, x)
    ensures r.Err? ==> JustRecorded(s, t, r) && (s.error.code != NoError ==> t == s)
    ensures r.Err? && s.error.code == NoError ==>
      r.error.code == if !Names(s, parent, o) then InvalidHandle
                      else if owner == Foreign then CrossSlab
                      else if owner == Nobody || !LiveHandle(s, child) then InvalidHandle
                      else if !NamesRoot(s, child) then AlreadyAttached
                      else if !Acyclic(AttachTo(s, parent.id, child.id, NO_STRING, 0).cells) then CycleDetected
                      else if !Utf8.Valid(key) then InvalidUtf8
                      else StringCapacityExceeded
  {
    hide Inv, Acyclic, IsAncestor, Attach, Denote, Members, Linked, Utf8.Valid;
    RefusalDecided(s, o, parent, key, owner, child);
    if r.Ok? {
      LinkedRight(s, o, parent, key, child);
      LinkedPlaces(s, o, parent, key, child);
      if x < |s.cells| && !IsAncestor(s.cells, x, parent.id) {
        LinkedFrame(s, o, parent, key, child, x);
      }
    }
  }

  lemma RefusalDecided(s: State, o: bool, parent: Handle, key: bytes, owner: Owner, child: Handle)
    requires Inv(s) && (o || key == [])
    ensures Refusal(s, o, parent, key, owner, child).None? <==>
      && s.error.code == NoError && Names(s, parent, o) && owner == Own && NamesRoot(s, child)
      && Acyclic(AttachTo(s, parent.id, child.id, NO_STRING, 0).cells)
      && (o ==> Utf8.Valid(key) && UsedBytes(s) + |key| <= s.capacity)
    ensures Refusal(s, o, parent, key, owner, child).Some? ==>
      Refusal(s, o, parent, key, owner, child).value != NoError
    ensures s.error.code == NoError && Refusal(s, o, parent, key, owner, child).Some? ==>
      Refusal(s, o, parent, key, owner, child).value ==
          if !Names(s, parent, o) then InvalidHandle
          else if owner == Foreign then CrossSlab
          else if owner == Nobody || !LiveHandle(s, child) then InvalidHandle
          else if !NamesRoot(s, child) then AlreadyAttached
          else if !Acyclic(AttachTo(s, parent.id, child.id, NO_STRING, 0).cells) then CycleDetected
          else if !Utf8.Valid(key) then InvalidUtf8
          else StringCapacityExceeded
  {
    hide Inv, Acyclic, IsAncestor, Attach, Utf8.Valid;
    if Names(s, parent, o) && NamesRoot(s, child) {
      AttachmentDecided(s, parent, child, KindOf(o), NO_STRING, 0);
    }
  }

  lemma LinkedPlaces(s: State, o: bool, parent: Handle, key: bytes, child: Handle)
    requires Inv(s) && (o || key == []) && Refusal(s, o, parent, key, Own, child).None?
    ensures var t := Linked(s, o, parent.id, child.id, key);
            && parent.id < |t.cells| && child.id < |t.cells| && |t.cells| == |s.cells|
            && t.cells[child.id].parent == parent.id && UsedBytes(t) == UsedBytes(s) + |key| && t.error == s.error
            && t.generation == s.generation && t.valid == s.valid
  {
    hide Inv, Refusal, CanAttach, IsAncestor, KeyFits, Attach, IsSuffix, View, PlantKey, KeyRef, KeyFlags;
    RefusalFacts(s, o, parent, key, child);
    LinkedFits(s, o, parent, key, child);
    var u := PlantKey(s, o, key);
    AttachCells(u, parent.id, child.id, KeyRef(s, o, key), KeyFlags(o, key));
    KeySize(s, o, key);
  }

  lemma KeySize(s: State, o: bool, key: bytes)
    requires o || key == []
    ensures |PlantKey(s, o, key).heap| == |s.heap| + |key| && PlantKey(s, o, key).error == s.error
    ensures PlantKey(s, o, key).generation == s.generation && PlantKey(s, o, key).valid == s.valid
  {
  }

  /** A new value is taken exactly if no error is recorded, it can be stored, and it and its key fit together. */
  lemma AddNewAnswer(s: State, o: bool, parent: Handle, key: bytes, j: Json, t: State, r: Result<nat>)
    requires Inv(s) && Proper(AddNew(o, parent, key, j)) && Step(s, AddNew(o, parent, key, j), t, r)
    ensures r.Ok? <==>
      && s.error.code == NoError && Names(s, parent, o) && Storable(j) && (o ==> Utf8.Valid(key))
      && UsedBytes(s) + Footprint(j) + |key| <= s.capacity
    ensures r.Ok? ==>
      && Inv(t) && r.value == |s.cells| && LiveHandle(t, Handle(r.value, t.generation)) && parent.id < |t.cells|
      && Members(t, parent.id, 0) == Members(s, parent.id, 0) + [Member(key, j)]
      && UsedBytes(t) == UsedBytes(s) + Footprint(j) + |key| && t.error == s.error
    ensures r.Err? ==> JustRecorded(s, t, r) && (s.error.code != NoError ==> t == s)
  {
    hide Inv, Acyclic, IsAncestor, Denote, Members, Linked, Utf8.Valid, Plant, Planted, Storable, Footprint, Refusal;
    if s.error.code == NoError && Names(s, parent, o) && Room(s, j) {
      var u, c := Plant(s, j), Handle(|s.cells|, s.generation);
      BuiltDecided(s, o, parent, key, j);
      PlantedFacts(s, u, j);
      PlantedLives(s, u, j);
      if r.Ok? {
        LinkedRight(u, o, parent, key, c);
        LinkedPlaces(u, o, parent, key, c);
        ExtendsDenotes(s, u, parent.id);
      }
    }
  }

  lemma PlantedLives(s: State, u: State, j: Json)
    requires Planted(s, u, j)
    ensures u.generation == s.generation && u.valid == s.valid && u.capacity == s.capacity && u.error == s.error
    ensures UsedBytes(u) == UsedBytes(s) + Footprint(j) && |s.cells| < |u.cells|
    ensures IsForest(u.cells) && Denote(u, |s.cells|) == j
  {
    hide Inv, IsSuffix, FreshRefs, Denote;
    InvForest(u);
  }

  // ---------- remove and detach ----------

  predicate SameKey(a: bytes, b: bytes, exact: bool) {
    if exact then a == b else SameLetters(a, b)
  }

  /** Why nothing was taken out. */
  function NotTaken(s: State, parent: Handle, o: bool): Error {
    Error(if !LiveHandle(s, parent) then InvalidHandle else if !Names(s, parent, o) then TypeMismatch else NotFound, 0)
  }

  /**
   * A member is taken out by its key exactly if the object has one with that key, up to case if asked for. The first
   * such member leaves, and is a root with its value.
   */
  lemma RemoveKeyAnswer(s: State, parent: Handle, key: bytes, exact: bool, t: State, r: Result<nat>)
    returns (k: nat)
    requires Inv(s) && Step(s, RemoveKey(parent, key, exact), t, r)
    ensures r.Ok? <==>
      Names(s, parent, true) && exists m :: m in Members(s, parent.id, 0) && SameKey(m.key, key, exact)
    ensures r.Ok? ==>
      var ms := Members(s, parent.id, 0);
      && k < |ms| && SameKey(ms[k].key, key, exact) && (forall i :: 0 <= i < k ==> !SameKey(ms[i].key, key, exact))
      && TakenOut(s, parent.id, k, t, r.value)
    ensures r.Err? ==> t == s && r.error == NotTaken(s, parent, true)
  {
    hide Inv, IsForest, Members, Denote, Detach, Matches, SameKey, FirstMatch;
    k := 0;
    InvForest(s);
    if Names(s, parent, true) {
      var ms := Members(s, parent.id, 0);
      k := FirstMatch(ms, key, exact, 0);
      FirstSame(ms, key, exact);
      if k < |ms| {
        TakenOutRight(s, parent.id, k);
      }
    }
  }

  lemma FirstSame(ms: seq<Member>, key: bytes, exact: bool)
    ensures var k := FirstMatch(ms, key, exact, 0);
            && (k < |ms| <==> exists m :: m in ms && SameKey(m.key, key, exact))
            && (k < |ms| ==> SameKey(ms[k].key, key, exact))
            && (forall i :: 0 <= i < k ==> !SameKey(ms[i].key, key, exact))
  {
    hide FirstMatch, Matches, SameLetters;
    forall i | 0 <= i < |ms|
      ensures Matches(ms[i].key, key, exact) <==> SameKey(ms[i].key, key, exact)
    {
      MatchesDecided(ms[i].key, key);
    }
  }

  /** The `k`-th member has left and is now the root `id`. */
  ghost predicate TakenOut(s: State, p: nat, k: nat, t: State, id: nat)
    requires IsForest(s.cells) && p < |s.cells| && k < |s.cells[p].kids|
  {
    && Inv(t) && p < |t.cells| && NamesRoot(t, Handle(id, t.generation)) && s.cells[p].kids[k] == id
    && Members(t, p, 0) == Members(s, p, 0)[..k] + Members(s, p, 0)[k + 1..]
    && Denote(t, id) == Members(s, p, 0)[k].value
  }

  lemma TakenOutRight(s: State, p: nat, k: nat)
    requires Inv(s) && s.valid && p < |s.cells| && k < |s.cells[p].kids|
    ensures IsForest(s.cells) && s.cells[p].kids[k] < |s.cells|
    ensures TakenOut(s, p, k, DetachFrom(s, p, k), s.cells[p].kids[k])
  {
    hide Inv, Shape, Acyclic, Members, Denote, Detach;
    InvForest(s);
    UnlinkedRight(s, p, k);
    MembersAt(s, p, 0, k);
  }

  /** An element is taken out by its position exactly if the array has it. */
  lemma RemoveAtAnswer(s: State, parent: Handle, index: nat, t: State, r: Result<nat>)
    requires Inv(s) && Step(s, RemoveAt(parent, index), t, r)
    ensures r.Ok? <==> Names(s, parent, false) && index < |Members(s, parent.id, 0)|
    ensures r.Ok? ==> TakenOut(s, parent.id, index, t, r.value)
    ensures r.Err? ==> t == s && r.error == NotTaken(s, parent, false)
  {
    hide Inv, Shape, Acyclic, Members, Denote, Detach;
    InvForest(s);
    if Names(s, parent, false) && index < |s.cells[parent.id].kids| {
      TakenOutRight(s, parent.id, index);
    }
  }
}

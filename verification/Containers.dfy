/** Objects and arrays as handles: adding, looking up, walking and removing members. */
module Containers {
  import opened Base
  import opened Json
  import opened Forest
  import opened Links
  import opened Dom
  import opened Ops
  import opened Build
  import opened Spec
  import opened Slabs
  import Text
  import Utf8

  /** An Object or an Array. */
  datatype Container = Container(slab: Slab?, id: nat, generation: nat, isObject: bool)

  function Parent(c: Container): Handle {
    Handle(c.id, c.generation)
  }

  // ---------- adding ----------

  method Status(c: Container) returns (r: Result<()>)
    requires c.slab != null ==> c.slab.Glued()
    ensures c.slab == null ==> r == Fail(InvalidHandle)
    ensures c.slab != null ==> var s := c.slab.Contents();
      r == if s.error.code != NoError then Err(s.error)
           else if !LiveContainer(s, Parent(c), c.isObject) then Fail(InvalidHandle)
           else Ok(())
  {
    hide Tail, Shape, Picture;
    if c.slab == null {
      return Fail(InvalidHandle);
    }
    r := c.slab.Status();
    if r.Ok? {
      if !c.slab.IsLive(c.id, c.generation) {
        return Fail(InvalidHandle);
      }
      c.slab.NodeAt(c.id);
      if c.slab.nodes[c.id].info.kind != KindOf(c.isObject) {
        return Fail(InvalidHandle);
      }
    }
  }

  /** Object::add and Array::add of an existing value; arrays are given the empty key. */
  method Add(c: Container, key: bytes, child: Value) returns (r: Result<()>)
    requires (c.slab != null ==> c.slab.Valid()) && (c.isObject || key == [])
    modifies Region(c.slab)
    ensures c.slab == null ==> r == Fail(InvalidHandle)
    ensures c.slab != null ==> c.slab.Valid()
    ensures c.slab != null ==>
      Attached(old(c.slab.Contents()), c.isObject, Parent(c), key, OwnerOf(child, c.slab), HandleOf(child),
          c.slab.Contents(), r)
  {
    hide Tail, Shape, Picture, Inv, Acyclic, IsAncestor, AddString, Attach, Text.Flags, Utf8.Valid, Utf8.IsOctets,
         CanAttach;
    var current := Status(c);
    if c.slab == null {
      return Err(current.error);
    }
    var slab := c.slab;
    ghost var s := slab.Contents();
    if current.Err? {
      var e := slab.RecordError(current.error);
      return Err(e);
    }
    var validation := slab.ValidateAttachment(c.id, c.generation, child, KindOf(c.isObject));
    if validation.Err? {
      var e := slab.RecordError(validation.error);
      return Err(e);
    }
    var ref, flags := NO_STRING, 0;
    if c.isObject {
      var stored := slab.StoreString(key);
      if stored.Err? {
        ghost var t := slab.Contents();
        var e := slab.RecordError(stored.error);
        return Err(e);
      }
      ref, flags := stored.value.0, stored.value.1;
    }
    AddFits(s, c.isObject, Parent(c), key, HandleOf(child));
    slab.AppendChild(c.id, child.id, ref, flags);
    LinkedRight(s, c.isObject, Parent(c), key, HandleOf(child));
    return Ok(());
  }

  lemma AddFits(s: State, o: bool, parent: Handle, key: bytes, child: Handle)
    requires Inv(s) && (o || key == []) && Refusal(s, o, parent, key, Own, child).None?
    ensures CanAttach(PlantKey(s, o, key), parent.id, child.id) && IsForest(s.cells)
  {
    hide Inv, CanAttach, IsSuffix, PlantKey, KeyFits, Refusal;
    LinkedFits(s, o, parent, key, child);
    InvForest(s);
  }

  /** A value that make_* can produce: a scalar, a string or an empty container. */
  predicate IsNew(j: Json) {
    && (j.JContainer? ==> j.members == [])
    && (j.JInt? || j.JUInt? ==> Storable(j))
  }

  method Create(slab: Slab, j: Json) returns (r: Result<Value>)
    requires slab.Valid() && IsNew(j)
    modifies slab.Repr()
    ensures slab.Valid() && Made(old(slab.Contents()), j, slab.Contents(), r.Ok?)
    ensures r.Ok? ==> r.value == Value(slab, |old(slab.Contents()).cells|, slab.generation)
    ensures r.Err? ==> r.error.code == MakeCode(old(slab.Contents()), j)
  {
    hide Tail, Shape, Picture, Inv, Plant, Planted, Storable, MakeCode, Room, Utf8.Valid;
    ghost var s := slab.Contents();
    if !j.JString? {
      CreateCode(s, j);
    }
    match j
    case JString(text) => r := slab.MakeString(text);
    case JFloat(d) => r := slab.MakeFloat(d);
    case JContainer(o, _) => r := slab.MakeContainer(o);
    case _ =>
      ScalarStorable(j);
      r := slab.MakeScalar(j);
  }

  /** What is not a string fails for one reason. */
  lemma CreateCode(s: State, j: Json)
    requires Inv(s) && IsNew(j) && !j.JString?
    ensures !Room(s, j) ==>
      MakeCode(s, j) == if j == JFloat(NonFinite) then NonFiniteNumber else if s.valid then OutOfMemory
          else InvalidArgument
  {
    hide Inv, Plant;
    MadeRight(s, j);
  }

  lemma ScalarStorable(j: Json)
    requires IsNew(j) && !j.JString? && !j.JFloat? && !j.JContainer?
    ensures Storable(j)
  {
  }

  /** ContainerBuilder::add: create the child, attach it, take everything back if it cannot be attached. */
  method AddNew(c: Container, key: bytes, j: Json) returns (r: Result<Value>)
    requires (c.slab != null ==> c.slab.Valid()) && (c.isObject || key == []) && IsNew(j)
    modifies Region(c.slab)
    ensures c.slab == null ==> r == Fail(InvalidHandle)
    ensures c.slab != null ==> c.slab.Valid()
    ensures c.slab != null ==> Built(old(c.slab.Contents()), c.isObject, Parent(c), key, j, c.slab.Contents(), IdOf(r))
    ensures r.Ok? ==> r.value.slab == c.slab && c.slab != null && r.value.generation == c.slab.generation
  {
    hide Tail, Shape, Picture, Inv, Storable, Plant, Footprint, Refusal, Linked, Planted, Room, Extends, CountersOk,
         Slab.Glued, IsNew;
    var current := Status(c);
    if c.slab == null {
      return Err(current.error);
    }
    var slab := c.slab;
    ghost var s := slab.Contents();
    if current.Err? {
      var e := slab.RecordError(current.error);
      return Err(e);
    }
    slab.Counters();
    var checkpoint := slab.Mark();
    var child := Create(slab, j);
    if child.Err? {
      var e := slab.RecordError(child.error);
      return Err(e);
    }
    ghost var u := slab.Contents();
    PlantedState(s, u, j);
    var attached := Add(c, key, child.value);
    if attached.Err? {
      InvParts(s);
      assert slab.Contents().(error := s.error) == u;
      slab.Rollback(checkpoint, s);
      ErrorIrrelevant(s, slab.error);
      return Err(attached.error);
    }
    LinkedKeeps(u, c.isObject, c.id, child.value.id, key);
    return child;
  }

  lemma LinkedKeeps(s: State, o: bool, p: nat, c: nat, key: bytes)
    requires p < |s.cells| && c < |s.cells|
    ensures Linked(s, o, p, c, key).generation == s.generation
  {
    hide Attach, KeyFlags, KeyRef;
  }

  lemma PlantedState(s: State, u: State, j: Json)
    requires Planted(s, u, j)
    ensures Extends(s, u) && u.error == s.error && u.generation == s.generation && |s.cells| < |u.cells|
  {
    hide IsSuffix, Inv, FreshRefs, Denote;
  }

  // ---------- walking along the siblings ----------

  /** ascii_case_equal. */
  method AsciiCaseEqual(left: bytes, right: bytes) returns (same: bool)
    ensures same <==> SameLetters(left, right)
    ensures same <==> Matches(left, right, false)
  {
    MatchesDecided(left, right);
    if |left| != |right| {
      return false;
    }
    for index := 0 to |left|
      invariant forall i :: 0 <= i < index ==> Fold(left[i]) == Fold(right[i])
    {
      if Fold(left[index]) != Fold(right[index]) {
        return false;
      }
    }
    return true;
  }

  /** A child id that is not the invalid one stands at a position. */
  lemma InForest(s: State, p: nat, k: nat)
    requires Inv(s) && p < |s.cells|
    ensures k < |s.cells[p].kids| <==> KidAt(s.cells[p].kids, k) != INVALID_ID
  {
    hide Acyclic, InfosOk, KeysOk, Disjoint;
  }

  /** What view_string returns for a member's key is its key. */
  lemma KeyOfMember(s: State, p: nat, k: nat)
    requires Inv(s) && p < |s.cells| && k < |s.cells[p].kids| && s.cells[p].info.kind == Object
    ensures var c := s.cells[p].kids[k];
            && c < |s.cells| && Live(s, s.cells[c].info.key) && Members(s, p, 0)[k].key == View(s, s.cells[c].info.key)
  {
    hide Shape, Acyclic, InfosOk, Disjoint, Members, View, Live, Denote, Utf8.Valid, Text.Flags;
    KidValid(s, p, k);
    MembersAt(s, p, 0, k);
    assert KeyOk(s, s.cells[s.cells[p].kids[k]]);
  }

  lemma MatchStep(ms: seq<Member>, key: bytes, exact: bool, k: nat)
    requires k < |ms|
    ensures FirstMatch(ms, key, exact, k) == if Matches(ms[k].key, key, exact) then k
        else FirstMatch(ms, key, exact, k + 1)
  {
  }

  lemma MatchEnd(ms: seq<Member>, key: bytes, exact: bool)
    ensures FirstMatch(ms, key, exact, |ms|) == |ms|
  {
  }

  /** The walk of find, remove and detach_from_object: the first member that matches, and the one before it. */
  method Locate(slab: Slab, p: nat, key: bytes, exact: bool) returns (previousId: nat, childId: nat, ghost k: nat)
    requires slab.Valid() && p < slab.nodeCount && slab.cells[p].info.kind == Object
    ensures var s := slab.Contents();
            var i := FirstMatch(Members(s, p, 0), key, exact, 0);
            && childId == KidAt(s.cells[p].kids, i) && (childId == INVALID_ID <==> i == |s.cells[p].kids|)
            && (childId != INVALID_ID ==> childId < slab.nodeCount)
            && previousId == if i == 0 then INVALID_ID else s.cells[p].kids[i - 1]
    ensures k == FirstMatch(Members(slab.Contents(), p, 0), key, exact, 0)
  {
    hide Tail, Shape, Acyclic, Picture, InfosOk, KeysOk, Disjoint, FirstMatch, Members, KeyOf, View, Live, Denote;
    ghost var s := slab.Contents();
    ghost var ms := Members(s, p, 0);
    k := 0;
    slab.SiblingAt(p, 0);
    previousId, childId := INVALID_ID, slab.nodes[p].firstChild;
    while childId != INVALID_ID
      invariant k <= |ms| && childId == KidAt(s.cells[p].kids, k)
      invariant previousId == if k == 0 then INVALID_ID else s.cells[p].kids[k - 1]
      invariant FirstMatch(ms, key, exact, 0) == FirstMatch(ms, key, exact, k)
      decreases |ms| - k
    {
      InForest(s, p, k);
      slab.SiblingAt(p, k);
      KeyOfMember(s, p, k);
      MatchStep(ms, key, exact, k);
      var found := slab.ViewString(slab.nodes[childId].info.key);
      var matches := found == key;
      if !exact {
        matches := AsciiCaseEqual(found, key);
      }
      if matches {
        return;
      }
      previousId := childId;
      childId := slab.nodes[childId].nextSibling;
      k := k + 1;
    }
    InForest(s, p, k);
    MatchEnd(ms, key, exact);
  }

  /** The walk of at and detach_from_array: the child at a position, and the one before it. */
  method LocateAt(slab: Slab, p: nat, index: nat) returns (previousId: nat, childId: nat)
    requires slab.Valid() && p < slab.nodeCount
    ensures var kids := slab.Contents().cells[p].kids;
            && childId == KidAt(kids, index) && (childId == INVALID_ID <==> index >= |kids|)
            && (childId != INVALID_ID ==> childId < slab.nodeCount)
            && (index < |kids| ==> previousId == if index == 0 then INVALID_ID else kids[index - 1])
  {
    hide Tail, Acyclic, Picture, InfosOk, KeysOk, Disjoint, Shape;
    ghost var s := slab.Contents();
    ghost var kids, k := s.cells[p].kids, 0;
    slab.SiblingAt(p, 0);
    var left := index;
    previousId, childId := INVALID_ID, slab.nodes[p].firstChild;
    while childId != INVALID_ID && left > 0
      invariant k <= |kids| && childId == KidAt(kids, k) && k + left == index
      invariant previousId == if k == 0 then INVALID_ID else kids[k - 1]
      decreases |kids| - k
    {
      InForest(s, p, k);
      slab.SiblingAt(p, k);
      previousId := childId;
      childId := slab.nodes[childId].nextSibling;
      left := left - 1;
      k := k + 1;
    }
    InForest(s, p, k);
    slab.SiblingAt(p, k);
  }

  // ---------- reading and removing ----------

  /** Object::find: the first member with the key. */
  method Find(c: Container, key: bytes) returns (r: Option<Value>)
    requires (c.slab != null ==> c.slab.Valid()) && c.isObject
    ensures c.slab == null || !LiveContainer(c.slab.Contents(), Parent(c), true) ==> r.None?
    ensures c.slab != null && LiveContainer(c.slab.Contents(), Parent(c), true) ==>
      var s := c.slab.Contents();
      var ms := Members(s, c.id, 0);
      var k := FirstMatch(ms, key, true, 0);
      r == if k == |ms| then None else Some(Value(c.slab, s.cells[c.id].kids[k], c.slab.generation))
  {
    hide Tail, Shape, Acyclic, Picture, InfosOk, KeysOk, Disjoint, FirstMatch, Members;
    if c.slab == null || !c.slab.IsLive(c.id, c.generation) {
      return None;
    }
    var slab := c.slab;
    slab.NodeAt(c.id);
    if slab.nodes[c.id].info.kind != Object {
      return None;
    }
    var _, childId, k := Locate(slab, c.id, key, true);
    return if childId == INVALID_ID then None else Some(Value(slab, childId, slab.generation));
  }

  /** Object::remove. */
  method Remove(c: Container, key: bytes) returns (r: Result<()>)
    requires (c.slab != null ==> c.slab.Valid()) && c.isObject
    modifies Region(c.slab)
    ensures c.slab == null ==> r == Fail(InvalidHandle)
    ensures c.slab != null ==> c.slab.Valid()
    ensures c.slab != null ==> RemovedKey(old(c.slab.Contents()), Parent(c), key, true, c.slab.Contents(), r)
  {
    hide Tail, Shape, Acyclic, Picture, InfosOk, KeysOk, Disjoint, FirstMatch, Members, Detach;
    if c.slab == null || !c.slab.IsLive(c.id, c.generation) {
      return Fail(InvalidHandle);
    }
    var slab := c.slab;
    ghost var s := slab.Contents();
    slab.NodeAt(c.id);
    if slab.nodes[c.id].info.kind != Object {
      return Fail(TypeMismatch);
    }
    var previousId, childId, k := Locate(slab, c.id, key, true);
    if childId == INVALID_ID {
      return Fail(NotFound);
    }
    slab.Unlink(c.id, previousId, childId, k);
    DetachInv(s, c.id, k);
    return Ok(());
  }

  /** Array::at. */
  method ElementAt(c: Container, index: nat) returns (r: Option<Value>)
    requires (c.slab != null ==> c.slab.Valid()) && !c.isObject
    ensures c.slab == null || !LiveContainer(c.slab.Contents(), Parent(c), false) ==> r.None?
    ensures c.slab != null && LiveContainer(c.slab.Contents(), Parent(c), false) ==>
      var kids := c.slab.Contents().cells[c.id].kids;
      r == if index < |kids| then Some(Value(c.slab, kids[index], c.slab.generation)) else None
  {
    hide Tail, Acyclic, Picture, InfosOk, KeysOk, Disjoint, Shape;
    if c.slab == null || !c.slab.IsLive(c.id, c.generation) {
      return None;
    }
    var slab := c.slab;
    slab.NodeAt(c.id);
    if slab.nodes[c.id].info.kind != Array {
      return None;
    }
    var _, childId := LocateAt(slab, c.id, index);
    return if childId == INVALID_ID then None else Some(Value(slab, childId, slab.generation));
  }

  /** Object::size and Array::size. */
  method Size(c: Container) returns (n: nat)
    requires c.slab != null ==> c.slab.Valid()
    ensures c.slab == null || !LiveContainer(c.slab.Contents(), Parent(c), c.isObject) ==> n == 0
    ensures c.slab != null && LiveContainer(c.slab.Contents(), Parent(c), c.isObject) ==>
      n == |Members(c.slab.Contents(), c.id, 0)|
  {
    hide Tail, Acyclic, Picture, InfosOk, KeysOk, Disjoint, Shape;
    if c.slab == null || !c.slab.IsLive(c.id, c.generation) {
      return 0;
    }
    var slab := c.slab;
    ghost var s := slab.Contents();
    slab.NodeAt(c.id);
    if slab.nodes[c.id].info.kind != KindOf(c.isObject) {
      return 0;
    }
    ghost var kids := s.cells[c.id].kids;
    slab.SiblingAt(c.id, 0);
    n := 0;
    var childId := slab.nodes[c.id].firstChild;
    while childId != INVALID_ID
      invariant n <= |kids| && childId == KidAt(kids, n)
      decreases |kids| - n
    {
      InForest(s, c.id, n);
      slab.SiblingAt(c.id, n);
      n := n + 1;
      childId := slab.nodes[childId].nextSibling;
    }
    InForest(s, c.id, n);
  }
}

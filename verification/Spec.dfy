/** What each operation may do to a slab's contents. */
module Spec {
  import opened Base
  import opened Json
  import opened Forest
  import opened Dom
  import opened Ops
  import opened Build
  import Utf8

  /** A handle of one slab. */
  datatype Handle = Handle(id: nat, generation: nat)

  /** Where a handle passed to a slab comes from. */
  datatype Owner = Nobody | Own | Foreign

  predicate LiveHandle(s: State, h: Handle) {
    s.valid && h.generation == s.generation && h.id < |s.cells|
  }

  // ---------- make ----------

  /** The value can be stored and there is room for it. */
  predicate Room(s: State, j: Json) {
    s.valid && Storable(j) && Footprint(j) <= Remaining(s)
  }

  /** make_*: the value's layout is added, or nothing changes; it succeeds exactly when the value fits. */
  ghost predicate Made(s: State, j: Json, t: State, ok: bool) {
    (ok <==> Room(s, j)) && (if ok then t == Plant(s, j) && Planted(s, t, j) else t == s)
  }

  /** Why make_* fails, in the order of its checks. */
  function MakeCode(s: State, j: Json): ErrorCode {
    if j == JFloat(NonFinite) then NonFiniteNumber
    else if !s.valid then InvalidArgument
    else if j.JString? && |j.s| > 65535 then StringCapacityExceeded
    else if j.JString? && !Utf8.Valid(j.s) then InvalidUtf8
    else if Remaining(s) < NODE_BYTES then OutOfMemory
    else StringCapacityExceeded
  }

  lemma MadeRight(s: State, j: Json)
    requires Inv(s)
    ensures Room(s, j) ==> Planted(s, Plant(s, j), j) && Inv(Plant(s, j))
    ensures j.JContainer? && j.members == [] ==>
      Plant(s, j) == AddNode(s, ContainerInfo(j.isObject)) && Footprint(j) == NODE_BYTES && Storable(j)
    ensures !j.JString? && !j.JContainer? ==> Plant(s, j) == AddNode(s, ScalarInfo(j)) && Footprint(j) == NODE_BYTES
    ensures j.JString? ==> Plant(s, j) == PlantString(s, j.s) && Footprint(j) == NODE_BYTES + |j.s|
  {
    hide Inv, Planted;
    if Room(s, j) {
      PlantRight(s, j);
      PlantedInv(s, Plant(s, j), j);
    }
    if j.JContainer? && j.members == [] {
      assert NodesOf(j.members) == 0 && StringsOf(j.members) == 0;
    }
  }

  lemma PlantedInv(s: State, t: State, j: Json)
    requires Planted(s, t, j)
    ensures Inv(t)
  {
    hide Inv;
  }

  // ---------- attachment ----------

  /** validate_attachment's answer, in the order of its checks. */
  ghost function Verdict(s: State, parent: Handle, owner: Owner, child: Handle, kind: ValueType): Option<ErrorCode> {
    if !LiveHandle(s, parent) then Some(InvalidHandle)
    else if s.cells[parent.id].info.kind != kind then Some(TypeMismatch)
    else if owner == Foreign then Some(CrossSlab)
    else if owner == Nobody || !LiveHandle(s, child) then Some(InvalidHandle)
    else if s.cells[child.id].parent != INVALID_ID then Some(AlreadyAttached)
    else if IsAncestor(s.cells, child.id, parent.id) then Some(CycleDetected)
    else None
  }

  /**
   * For a live container and a live detached child of the slab, the answer is yes exactly if linking makes no
   * cycle.
   */
  lemma AttachmentDecided(s: State, parent: Handle, child: Handle, kind: ValueType, key: StringRef, keyFlags: nat)
    requires Inv(s) && LiveHandle(s, parent) && LiveHandle(s, child) && IsContainer(kind)
    requires s.cells[parent.id].info.kind == kind && s.cells[child.id].parent == INVALID_ID
    ensures Verdict(s, parent, Own, child, kind).None? <==>
      Acyclic(AttachTo(s, parent.id, child.id, key, keyFlags).cells)
    ensures Verdict(s, parent, Own, child, kind) in {None, Some(CycleDetected)}
  {
    hide Shape, IsAncestor, Attach, IsRank, Acyclic;
    if IsAncestor(s.cells, child.id, parent.id) {
      AttachCycle(s.cells, parent.id, child.id, key, keyFlags);
    } else {
      AttachForest(s.cells, parent.id, child.id, key, keyFlags);
    }
  }

  // ---------- add ----------

  function KindOf(o: bool): ValueType {
    if o then Object else Array
  }

  predicate LiveContainer(s: State, parent: Handle, o: bool) {
    LiveHandle(s, parent) && s.cells[parent.id].info.kind == KindOf(o)
  }

  /** The key, if any, is stored and the child linked under it. */
  function Linked(s: State, o: bool, p: nat, c: nat, key: bytes): State
    requires p < |s.cells| && c < |s.cells|
  {
    AttachTo(PlantKey(s, o, key), p, c, KeyRef(s, o, key), KeyFlags(o, key))
  }

  /** Why Object::add or Array::add refuses an existing child, in the order of the checks. */
  ghost function Refusal(s: State, o: bool, parent: Handle, key: bytes, owner: Owner,
                         child: Handle): Option<ErrorCode> {
    if s.error.code != NoError then Some(s.error.code)
    else if !LiveContainer(s, parent, o) then Some(InvalidHandle)
    else if Verdict(s, parent, owner, child, KindOf(o)).Some? then Verdict(s, parent, owner, child, KindOf(o))
    else if o && !Utf8.Valid(key) then Some(InvalidUtf8)
    else if o && |key| > Remaining(s) then Some(StringCapacityExceeded)
    else None
  }

  /** Nothing changes but the error, and that only if none was recorded before. */
  predicate Refused<T>(s: State, code: ErrorCode, t: State, r: Result<T>) {
    r.Err? && r.error.code == code && (s.error.code != NoError ==> r.error == s.error) && t == s.(error := r.error)
  }

  /** Adding an existing value. */
  ghost predicate Attached<T>(s: State, o: bool, parent: Handle, key: bytes, owner: Owner, child: Handle, t: State,
                              r: Result<T>) {
    match Refusal(s, o, parent, key, owner, child)
    case Some(code) => Refused(s, code, t, r)
    case None => r.Ok? && t == Linked(s, o, parent.id, child.id, key)
  }

  /** Adding a new value: created, linked, and taken back when linking fails. */
  ghost predicate Built(s: State, o: bool, parent: Handle, key: bytes, j: Json, t: State, r: Result<nat>) {
    if s.error.code != NoError then Refused(s, s.error.code, t, r)
    else if !LiveContainer(s, parent, o) then Refused(s, InvalidHandle, t, r)
    else if !Room(s, j) then r.Err? && r.error.code == MakeCode(s, j) && t == s.(error := r.error)
    else
      match Refusal(Plant(s, j), o, parent, key, Own, Handle(|s.cells|, s.generation))
      case Some(code) => Refused(s, code, t, r)
      case None => r == Ok(|s.cells|) && t == Linked(Plant(s, j), o, parent.id, |s.cells|, key)
  }

  lemma LinkedFits(s: State, o: bool, parent: Handle, key: bytes, child: Handle)
    requires Inv(s) && (o || key == []) && Refusal(s, o, parent, key, Own, child).None?
    ensures var u := PlantKey(s, o, key);
            && Inv(u) && Extends(s, u) && u.cells == s.cells
            && CanAttach(u, parent.id, child.id) && KeyFits(u, parent.id, KeyRef(s, o, key), KeyFlags(o, key))
            && (o ==> View(u, KeyRef(s, o, key)) == key)
  {
    hide Inv, IsSuffix, StringOk, Live, View, Unclaimed, IsAncestor;
    assert o || |key| <= UsedBytes(s);
    InvRemaining(s);
    PlantKeyRight(s, o, key);
  }

  lemma InvRemaining(s: State)
    requires Inv(s)
    ensures Remaining(s) >= 0
  {
    hide IsForest, InfosOk, KeysOk, Disjoint;
  }

  /** An accepted child: the container's members become the old ones and the new one. */
  lemma LinkedRight(s: State, o: bool, parent: Handle, key: bytes, child: Handle)
    requires Inv(s) && (o || key == []) && Refusal(s, o, parent, key, Own, child).None?
    ensures var t := Linked(s, o, parent.id, child.id, key);
            && Inv(t) && Members(t, parent.id, 0) == Members(s, parent.id, 0) + [Member(key, Denote(s, child.id))]
  {
    hide Inv, IsSuffix, StringOk, Live, View, Unclaimed, IsAncestor, Attach, Members, Denote, PlantKey, KeyRef,
         KeyFlags, Refusal;
    LinkedFits(s, o, parent, key, child);
    var u := PlantKey(s, o, key);
    RefusalFacts(s, o, parent, key, child);
    InvForest(u);
    AttachInv(u, parent.id, child.id, KeyRef(s, o, key), KeyFlags(o, key));
    AttachAppends(u, parent.id, child.id, KeyRef(s, o, key), KeyFlags(o, key));
    ExtendsDenotes(s, u, parent.id);
    ExtendsDenotes(s, u, child.id);
  }

  lemma RefusalFacts(s: State, o: bool, parent: Handle, key: bytes, child: Handle)
    requires Refusal(s, o, parent, key, Own, child).None?
    ensures LiveContainer(s, parent, o) && LiveHandle(s, child) && s.cells[child.id].parent == INVALID_ID
    ensures s.error.code == NoError
  {
    hide IsAncestor;
  }

  lemma InvParts(s: State)
    requires Inv(s)
    ensures CountersOk(s) && Shape(s.cells)
  {
  }

  lemma InvForest(s: State)
    requires Inv(s)
    ensures IsForest(s.cells)
  {
  }

  /** Every tree that does not contain the container keeps its value. */
  lemma LinkedFrame(s: State, o: bool, parent: Handle, key: bytes, child: Handle, x: nat)
    requires Inv(s) && (o || key == []) && Refusal(s, o, parent, key, Own, child).None?
    requires x < |s.cells| && !IsAncestor(s.cells, x, parent.id)
    ensures var t := Linked(s, o, parent.id, child.id, key);
            Inv(t) && Denote(t, x) == Denote(s, x)
  {
    hide Inv, IsSuffix, StringOk, Live, View, Unclaimed, IsAncestor, Attach, Members, Denote, PlantKey, KeyRef,
         KeyFlags, Refusal;
    LinkedFits(s, o, parent, key, child);
    var u := PlantKey(s, o, key);
    RefusalFacts(s, o, parent, key, child);
    InvForest(u);
    AttachInv(u, parent.id, child.id, KeyRef(s, o, key), KeyFlags(o, key));
    AttachFrame(u, parent.id, child.id, KeyRef(s, o, key), KeyFlags(o, key), x);
    ExtendsDenotes(s, u, x);
  }

  /** Climbing from an old node never reaches a new one. */
  lemma {:induction false} OldClimb(before: Cells, cells: Cells, x: nat, d: nat)
    requires Shape(before) && before <= cells && |cells| < INVALID_ID && x < |before|
    ensures Climb(cells, x, d) < |before| || Climb(cells, x, d) == INVALID_ID
  {
    if d > 0 {
      OldClimb(before, cells, x, d - 1);
      var y := Climb(cells, x, d - 1);
      if y < |before| {
        assert cells[y] == before[y];
      }
    }
  }

  /** A value just created is refused only because of its key. */
  lemma BuiltDecided(s: State, o: bool, parent: Handle, key: bytes, j: Json)
    requires Inv(s) && s.error.code == NoError && LiveContainer(s, parent, o) && Room(s, j)
    ensures var u, c := Plant(s, j), Handle(|s.cells|, s.generation);
            && Planted(s, u, j)
            && Refusal(u, o, parent, key, Own, c) ==
                 if o && !Utf8.Valid(key) then Some(InvalidUtf8)
                 else if o && Footprint(j) + |key| > Remaining(s) then Some(StringCapacityExceeded)
                 else None
  {
    hide Inv, IsSuffix, Shape, Acyclic, Denote, FreshRefs, IsAncestor, Plant, Storable, Footprint, Utf8.Valid;
    var u, c := Plant(s, j), |s.cells|;
    PlantRight(s, j);
    PlantedFacts(s, u, j);
    if IsAncestor(u.cells, c, parent.id) {
      NewNotAbove(s, u, parent.id);
    }
  }

  lemma PlantedFacts(s: State, u: State, j: Json)
    requires Inv(s) && Planted(s, u, j)
    ensures Inv(u) && Extends(s, u) && |s.cells| < |u.cells| && u.cells[|s.cells|].parent == INVALID_ID
    ensures Remaining(u) == Remaining(s) - Footprint(j)
    ensures forall x :: 0 <= x < |s.cells| ==> u.cells[x] == s.cells[x]
  {
    hide IsSuffix, IsForest, InfosOk, KeysOk, Disjoint, FreshRefs;
  }

  lemma NewNotAbove(s: State, u: State, x: nat)
    requires Inv(s) && Inv(u) && Extends(s, u) && x < |s.cells| < |u.cells|
    ensures !IsAncestor(u.cells, |s.cells|, x)
  {
    hide IsSuffix, InfosOk, KeysOk, Disjoint;
    if IsAncestor(u.cells, |s.cells|, x) {
      var d: nat :| Climb(u.cells, x, d) == |s.cells|;
      OldClimb(s.cells, u.cells, x, d);
    }
  }

  // ---------- members by key and by position ----------

  /** fold_ascii. */
  function Fold(b: byte): byte {
    if 65 <= b <= 90 then b + 32 else b
  }

  /** Equal keys; or equal up to the case of ASCII letters. */
  predicate Matches(a: bytes, b: bytes, exact: bool) {
    if exact then a == b else |a| == |b| && forall i :: 0 <= i < |a| ==> Fold(a[i]) == Fold(b[i])
  }

  /** The same byte, or the two cases of one ASCII letter. */
  predicate SameLetter(a: byte, b: byte) {
    a == b || (65 <= a <= 90 && b == a + 32) || (65 <= b <= 90 && a == b + 32)
  }

  predicate SameLetters(a: bytes, b: bytes) {
    |a| == |b| && forall i :: 0 <= i < |a| ==> SameLetter(a[i], b[i])
  }

  /** Folding makes equal exactly what differs in the case of ASCII letters alone. */
  lemma MatchesDecided(a: bytes, b: bytes)
    ensures Matches(a, b, true) <==> a == b
    ensures Matches(a, b, false) <==> SameLetters(a, b)
  {
    assert forall x: byte, y: byte :: Fold(x) == Fold(y) <==> SameLetter(x, y);
  }

  /** The first member from `k` on whose key matches; |ms| when there is none. */
  function FirstMatch(ms: seq<Member>, key: bytes, exact: bool, k: nat): (r: nat)
    requires k <= |ms|
    ensures k <= r <= |ms| && (r < |ms| ==> Matches(ms[r].key, key, exact))
    ensures forall j :: k <= j < r ==> !Matches(ms[j].key, key, exact)
    decreases |ms| - k
  {
    if k == |ms| || Matches(ms[k].key, key, exact) then k else FirstMatch(ms, key, exact, k + 1)
  }

  /** The `k`-th child leaves its container, if there is one. */
  ghost predicate Unlinked<T>(s: State, p: nat, k: nat, t: State, r: Result<T>)
    requires IsForest(s.cells) && p < |s.cells|
  {
    if k < |s.cells[p].kids| then
      KidValid(s, p, k);
      r.Ok? && t == DetachFrom(s, p, k)
    else r == Fail(NotFound) && t == s
  }

  /** Taking a member out by its key: the first match goes. */
  ghost predicate RemovedKey<T>(s: State, parent: Handle, key: bytes, exact: bool, t: State, r: Result<T>)
    requires IsForest(s.cells)
  {
    if !LiveHandle(s, parent) then r == Fail(InvalidHandle) && t == s
    else if s.cells[parent.id].info.kind != Object then r == Fail(TypeMismatch) && t == s
    else Unlinked(s, parent.id, FirstMatch(Members(s, parent.id, 0), key, exact, 0), t, r)
  }

  /** The node that is taken out. */
  ghost function FoundKey(s: State, parent: Handle, key: bytes, exact: bool): nat {
    if IsForest(s.cells) && parent.id < |s.cells| then
      var k := FirstMatch(Members(s, parent.id, 0), key, exact, 0);
      if k < |s.cells[parent.id].kids| then s.cells[parent.id].kids[k] else INVALID_ID
    else INVALID_ID
  }

  ghost function FoundAt(s: State, parent: Handle, index: nat): nat {
    if parent.id < |s.cells| && index < |s.cells[parent.id].kids| then s.cells[parent.id].kids[index] else INVALID_ID
  }

  /** Taking an element out by its position. */
  ghost predicate RemovedAt<T>(s: State, parent: Handle, index: nat, t: State, r: Result<T>)
    requires IsForest(s.cells)
  {
    if !LiveHandle(s, parent) then r == Fail(InvalidHandle) && t == s
    else if s.cells[parent.id].info.kind != Array then r == Fail(TypeMismatch) && t == s
    else Unlinked(s, parent.id, index, t, r)
  }

  /** The members become the old ones without the `k`-th, which is then a root with its old value. */
  lemma UnlinkedRight(s: State, p: nat, k: nat)
    requires Inv(s) && p < |s.cells| && k < |s.cells[p].kids|
    ensures var c := s.cells[p].kids[k];
            && c < |s.cells|
            && var t := DetachFrom(s, p, k);
            && Inv(t) && Members(t, p, 0) == Members(s, p, 0)[..k] + Members(s, p, 0)[k + 1..]
            && t.cells[c].parent == INVALID_ID && Denote(t, c) == Denote(s, c)
  {
    hide Inv, Shape, Acyclic, IsAncestor, Members, Denote, Detach;
    InvForest(s);
    KidValid(s, p, k);
    var c := s.cells[p].kids[k];
    DetachInv(s, p, k);
    DetachRemoves(s, p, k);
    KidNotAbove(s.cells, p, c);
    DetachFrame(s, p, k, c);
    DetachCells(s.cells, p, k);
  }
}

/** How the parser lays a value out in a slab, and that the layout denotes the value. */
module Build {
  import opened Base
  import opened Json
  import opened Forest
  import opened Dom
  import opened Ops
  import Text
  import Utf8

  // ---------- fresh nodes ----------

  /** A default-constructed node of a kind. */
  function FreshInfo(kind: ValueType): Info {
    Info(kind, FloatingPoint, 0, 0, NO_STRING, PUnsigned(0))
  }

  function ContainerInfo(isObject: bool): Info {
    FreshInfo(if isObject then Object else Array)
  }

  /** The node of a value that is neither a string nor a container. */
  function ScalarInfo(j: Json): Info {
    match j
    case JBool(b) => FreshInfo(Bool).(payload := PBool(b))
    case JInt(i) => FreshInfo(Number).(aux := SignedInteger, payload := PSigned(i))
    case JUInt(u) => FreshInfo(Number).(aux := UnsignedInteger, payload := PUnsigned(u))
    case JFloat(d) => FreshInfo(Number).(payload := PFloat(d))
    case _ => FreshInfo(Null)
  }

  function StringInfo(ref: StringRef, flags: nat): Info {
    FreshInfo(String).(payload := PString(ref), valueFlags := flags)
  }

  // ---------- the layout ----------

  function PlantString(s: State, data: bytes): State {
    AddNode(AddString(s, data), StringInfo(NewRef(s, data), Text.Flags(data)))
  }

  /** Nodes in the order the parser meets them; a member's key before its value. */
  function Plant(s: State, j: Json): (t: State)
    ensures |t.cells| > |s.cells|
    decreases j, 0
  {
    match j
    case JString(data) => PlantString(s, data)
    case JContainer(o, ms) => PlantMembers(AddNode(s, ContainerInfo(o)), |s.cells|, o, ms)
    case _ => AddNode(s, ScalarInfo(j))
  }

  function PlantKey(s: State, o: bool, key: bytes): State {
    if o then AddString(s, key) else s
  }

  function KeyRef(s: State, o: bool, key: bytes): StringRef {
    if o then NewRef(s, key) else NO_STRING
  }

  function KeyFlags(o: bool, key: bytes): nat {
    if o then Text.Flags(key) else 0
  }

  function PlantMember(s: State, p: nat, o: bool, m: Member): (t: State)
    requires p < |s.cells|
    ensures |t.cells| > |s.cells|
    decreases m, 0
  {
    AttachTo(Plant(PlantKey(s, o, m.key), m.value), p, |s.cells|, KeyRef(s, o, m.key), KeyFlags(o, m.key))
  }

  function PlantMembers(s: State, p: nat, o: bool, ms: seq<Member>): (t: State)
    requires p < |s.cells|
    ensures |t.cells| >= |s.cells|
    decreases ms, 1
  {
    if ms == [] then s
    else PlantMember(PlantMembers(s, p, o, ms[..|ms| - 1]), p, o, ms[|ms| - 1])
  }

  // ---------- what planting achieves ----------

  /** The strings of `t`'s additional cells lie in `t`'s additional bytes. */
  ghost predicate FreshRefs(s: State, t: State) {
    forall i, a :: |s.cells| <= i < |t.cells| ==> RefBelow(s, Ref(t.cells[i], a))
  }

  predicate RefBelow(s: State, r: StringRef) {
    r.length == 0 || r.offset + r.length <= s.capacity - |s.heap|
  }

  /** `t` is `s` and a new tree for `j`, whose root is the first new node. */
  ghost predicate Planted(s: State, t: State, j: Json) {
    && Inv(t) && Extends(s, t) && FreshRefs(s, t)
    && |t.cells| == |s.cells| + Nodes(j) && |t.heap| == |s.heap| + Strings(j)
    && t.cells[|s.cells|].parent == INVALID_ID
    && Denote(t, |s.cells|) == j
  }

  /** `t` is `s` with `ms` added below `p`, which was childless. */
  ghost predicate Filled(s: State, t: State, p: nat, ms: seq<Member>)
    requires p < |s.cells|
  {
    && Inv(t) && Grows(s, t, p) && FreshRefs(s, t)
    && |t.cells| == |s.cells| + NodesOf(ms) && |t.heap| == |s.heap| + StringsOf(ms)
    && Members(t, p, 0) == ms
  }

  /** Nothing of `s` has changed but the children of `p`. */
  ghost predicate Grows(s: State, t: State, p: nat) {
    && p < |s.cells| <= |t.cells|
    && (forall x :: 0 <= x < |s.cells| && x != p ==> t.cells[x] == s.cells[x])
    && t.cells[p] == s.cells[p].(kids := t.cells[p].kids)
    && IsSuffix(s.heap, t.heap)
    && t.capacity == s.capacity && t.valid == s.valid && t.generation == s.generation && t.error == s.error
  }

  lemma GrowsTransitive(s: State, t: State, u: State, p: nat)
    requires Grows(s, t, p) && Grows(t, u, p)
    ensures Grows(s, u, p)
  {
    SuffixTransitive(s.heap, t.heap, u.heap);
  }

  lemma GrowsExtends(s: State, t: State, u: State, p: nat)
    requires Extends(s, t) && Grows(t, u, p) && |s.cells| <= p
    ensures Extends(s, u)
  {
    SuffixTransitive(s.heap, t.heap, u.heap);
    assert forall x :: 0 <= x < |s.cells| ==> u.cells[x] == t.cells[x] == s.cells[x];
  }

  /** A reference into `s` is claimed by none of the strings added later. */
  lemma UnclaimedLater(s: State, t: State, r: StringRef)
    requires Extends(s, t) && FreshRefs(s, t) && Unclaimed(s.cells, r) && Live(s, r)
    ensures Unclaimed(t.cells, r)
  {
    forall i, a | 0 <= i < |t.cells|
      ensures Apart(Ref(t.cells[i], a), r)
    {
      if i < |s.cells| {
        assert t.cells[i] == s.cells[i];
      } else {
        assert RefBelow(s, Ref(t.cells[i], a));
      }
    }
  }

  lemma FreshTransitive(s: State, t: State, u: State)
    requires FreshRefs(s, t) && FreshRefs(t, u) && |s.heap| <= |t.heap| && |s.cells| <= |t.cells| <= |u.cells|
    requires t.capacity == s.capacity
    requires forall x :: |s.cells| <= x < |t.cells| ==> u.cells[x].info == t.cells[x].info
    ensures FreshRefs(s, u)
  {
    forall i, a | |s.cells| <= i < |u.cells|
      ensures RefBelow(s, Ref(u.cells[i], a))
    {
      if i < |t.cells| {
        assert Ref(u.cells[i], a) == Ref(t.cells[i], a);
      } else {
        assert RefBelow(t, Ref(u.cells[i], a));
      }
    }
  }

  // ---------- scalars and strings ----------

  lemma PlantScalarRight(s: State, j: Json)
    requires Inv(s) && NODE_BYTES <= Remaining(s) && Storable(j) && !j.JString? && !j.JContainer?
    ensures Planted(s, AddNode(s, ScalarInfo(j)), j)
  {
    hide IsSuffix, Disjoint, IsForest, InfosOk, KeysOk;
    AddNodeRight(s, ScalarInfo(j));
  }

  lemma AddedFresh(s: State, t: State, info: Info)
    requires t.cells == AddCell(s.cells, info) && info.key == NO_STRING
    requires RefBelow(s, Ref(Cell(info, INVALID_ID, []), false))
    ensures FreshRefs(s, t) && t.cells[|s.cells|] == Cell(info, INVALID_ID, [])
  {
  }

  lemma PlantStringRight(s: State, data: bytes)
    requires Inv(s) && NODE_BYTES + |data| <= Remaining(s) && Utf8.Valid(data)
    ensures Planted(s, PlantString(s, data), JString(data))
  {
    hide IsSuffix, Inv, Live, View, Extends, FreshRefs, Unclaimed, Apart, Denote, AddCell, StringOk, Text.Flags;
    var t, r := AddString(s, data), NewRef(s, data);
    var info := StringInfo(r, Text.Flags(data));
    AddStringRight(s, data);
    AddNodeRight(t, info);
    ExtendsTransitive(s, t, AddNode(t, info));
    AddedFresh(s, AddNode(t, info), info);
    AddCellLength(t, info);
    assert Leaf(t, info) == JString(View(t, r));
    assert Inv(AddNode(t, info)) && AddNode(t, info) == PlantString(s, data);
  }

  lemma NothingClaims(cells: Cells)
    ensures Unclaimed(cells, NO_STRING)
  {
  }

  lemma AddCellLength(s: State, info: Info)
    ensures |AddNode(s, info).cells| == |s.cells| + 1
  {
  }

  // ---------- containers ----------

  lemma RootAncestor(cells: Cells, c: nat, p: nat)
    requires |cells| < INVALID_ID && p < |cells| && c < |cells| && cells[p].parent == INVALID_ID
    requires IsAncestor(cells, c, p)
    ensures c == p
  {
    var d: nat :| Climb(cells, p, d) == c;
    if d > 0 {
      ClimbFirst(cells, p, d);
      ClimbLost(cells, INVALID_ID, d - 1);
    }
  }

  /** Planting a tree in an invariant state with enough room. */
  lemma {:induction false} PlantRight(s: State, j: Json)
    requires Inv(s) && Storable(j) && Footprint(j) <= Remaining(s)
    ensures Planted(s, Plant(s, j), j)
    decreases j, 0
  {
    match j
    case JString(data) => PlantStringRight(s, data);
    case JContainer(o, ms) => PlantContainerRight(s, o, ms);
    case _ => PlantScalarRight(s, j);
  }

  lemma {:induction false} PlantContainerRight(s: State, o: bool, ms: seq<Member>)
    requires Inv(s) && AllStorable(o, ms) && NODE_BYTES + FootprintOf(ms) <= Remaining(s)
    ensures Planted(s, Plant(s, JContainer(o, ms)), JContainer(o, ms))
    decreases ms, 3
  {
    hide IsSuffix, Disjoint, InfosOk, KeysOk, Shape, Acyclic, Extends, PlantMembers, Members, FreshRefs, Unclaimed,
         AddCell;
    var t := AddNode(s, ContainerInfo(o));
    NothingClaims(s.cells);
    AddNodeRight(s, ContainerInfo(o));
    AddedFresh(s, t, ContainerInfo(o));
    AddCellLength(s, ContainerInfo(o));
    PlantMembersRight(t, |s.cells|, o, ms);
    var u := PlantMembers(t, |s.cells|, o, ms);
    GrowsExtends(s, t, u, |s.cells|);
    FreshTransitive(s, t, u);
    assert Inv(u) && u == Plant(s, JContainer(o, ms));
    assert Denote(u, |s.cells|) == JContainer(o, Members(u, |s.cells|, 0));
  }

  lemma {:induction false} PlantMembersRight(s: State, p: nat, o: bool, ms: seq<Member>)
    requires Inv(s) && p < |s.cells| && s.cells[p] == Cell(s.cells[p].info, INVALID_ID, [])
    requires s.cells[p].info.kind == (if o then Object else Array)
    requires AllStorable(o, ms) && FootprintOf(ms) <= Remaining(s)
    ensures Filled(s, PlantMembers(s, p, o, ms), p, ms)
    decreases ms, 1
  {
    hide IsSuffix, Inv, Plant, PlantMember, Storable, FreshRefs, Filled, Grows, Members;
    if ms == [] {
      FillNothing(s, p);
    } else {
      var rest, m := ms[..|ms| - 1], ms[|ms| - 1];
      assert ms == rest + [m];
      FootprintSnoc(rest, m);
      assert m in ms && forall x :: x in rest ==> x in ms;
      PlantMembersRight(s, p, o, rest);
      var t := PlantMembers(s, p, o, rest);
      FilledSize(s, t, p, rest);
      PlantMemberRight(t, p, o, m);
      FillStep(s, t, PlantMember(t, p, o, m), p, rest, m);
    }
  }

  lemma FillNothing(s: State, p: nat)
    requires Inv(s) && p < |s.cells| && s.cells[p].kids == []
    ensures Filled(s, s, p, [])
  {
    hide IsSuffix, Disjoint, InfosOk, KeysOk, Shape, Acyclic, FreshRefs;
    NothingFresh(s, p);
    assert Members(s, p, 0) == [];
  }

  lemma FilledSize(s: State, t: State, p: nat, ms: seq<Member>)
    requires p < |s.cells| && Filled(s, t, p, ms)
    ensures Inv(t) && p < |t.cells| && t.cells[p].parent == s.cells[p].parent && t.cells[p].info == s.cells[p].info
    ensures Remaining(t) == Remaining(s) - FootprintOf(ms)
  {
    hide IsSuffix, Disjoint, InfosOk, KeysOk, Shape, Acyclic, FreshRefs;
  }

  lemma FillStep(s: State, t: State, u: State, p: nat, rest: seq<Member>, m: Member)
    requires p < |s.cells| && Filled(s, t, p, rest)
    requires Inv(u) && Grows(t, u, p) && FreshRefs(t, u)
    requires |u.cells| == |t.cells| + Nodes(m.value) && |u.heap| == |t.heap| + |m.key| + Strings(m.value)
    requires p < |t.cells| && Members(u, p, 0) == Members(t, p, 0) + [m]
    ensures Filled(s, u, p, rest + [m])
  {
    hide IsSuffix, Disjoint, InfosOk, KeysOk, Shape, Acyclic, FreshRefs, Members;
    NodesSnoc(rest, m);
    GrowsTransitive(s, t, u, p);
    FreshTransitive(s, t, u);
  }

  lemma NothingFresh(s: State, p: nat)
    requires p < |s.cells|
    ensures FreshRefs(s, s) && Grows(s, s, p)
  {
    SuffixSelf(s.heap);
  }

  lemma NodesSnoc(ms: seq<Member>, m: Member)
    ensures NodesOf(ms + [m]) == NodesOf(ms) + Nodes(m.value)
    ensures StringsOf(ms + [m]) == StringsOf(ms) + |m.key| + Strings(m.value)
  {
    NodesConcat(ms, [m]);
    assert NodesOf([m]) == Nodes(m.value) + NodesOf([]);
    assert StringsOf([m]) == |m.key| + Strings(m.value) + StringsOf([]);
  }

  /** A key in front of a member, if the parent is an object. */
  lemma PlantKeyRight(s: State, o: bool, key: bytes)
    requires Inv(s) && |key| <= Remaining(s) && (if o then Utf8.Valid(key) else key == [])
    ensures var t, r := PlantKey(s, o, key), KeyRef(s, o, key);
            && Inv(t) && Extends(s, t) && t.cells == s.cells && |t.heap| == |s.heap| + |key|
            && Live(t, r) && Unclaimed(t.cells, r) && RefBelow(s, r)
            && (o ==> StringOk(t, r, KeyFlags(o, key)) && View(t, r) == key)
            && (!o ==> r == NO_STRING)
  {
    hide IsSuffix, Inv;
    if o {
      AddStringRight(s, key);
    } else {
      SuffixSelf(s.heap);
    }
  }

  /** One more member: everything else below `p` keeps its value. */
  lemma {:induction false} PlantMemberRight(s: State, p: nat, o: bool, m: Member)
    requires Inv(s) && p < |s.cells| && s.cells[p].parent == INVALID_ID
    requires s.cells[p].info.kind == (if o then Object else Array)
    requires Storable(m.value) && (if o then Utf8.Valid(m.key) else m.key == [])
    requires |m.key| + Footprint(m.value) <= Remaining(s)
    ensures var t := PlantMember(s, p, o, m);
            && Inv(t) && Grows(s, t, p) && FreshRefs(s, t)
            && |t.cells| == |s.cells| + Nodes(m.value) && |t.heap| == |s.heap| + |m.key| + Strings(m.value)
            && Members(t, p, 0) == Members(s, p, 0) + [m]
    decreases m, 1
  {
    hide IsSuffix, Disjoint, InfosOk, KeysOk, Acyclic, Shape, Plant, Members, Denote, PlantKey, KeyRef, KeyFlags,
         StringOk, Live, View,
         Unclaimed, Storable, Apart, RefBelow;
    var c, r, flags := |s.cells|, KeyRef(s, o, m.key), KeyFlags(o, m.key);
    PlantKeyRight(s, o, m.key);
    var t := PlantKey(s, o, m.key);
    PlantRight(t, m.value);
    var u := Plant(t, m.value);
    UnclaimedLater(t, u, r);
    ViewStable(t, u, r);
    if o {
      StringStable(t, u, r, flags);
    }
    ExtendsTransitive(s, t, u);
    ExtendsDenotes(s, u, p);
    assert u.cells[p] == s.cells[p];
    if IsAncestor(u.cells, c, p) {
      RootAncestor(u.cells, c, p);
    }
    AttachInv(u, p, c, r, flags);
    AttachAppends(u, p, c, r, flags);
    AttachCells(u, p, c, r, flags);
    MemberFresh(s, t, u, p, c, r, flags);
  }

  /** The bookkeeping of PlantMember: what the final link leaves alone. */
  lemma MemberFresh(s: State, t: State, u: State, p: nat, c: nat, r: StringRef, flags: nat)
    requires Extends(s, t) && t.cells == s.cells && Extends(t, u) && FreshRefs(t, u) && c == |s.cells| < |u.cells|
    requires p < |s.cells|
    requires CanAttach(u, p, c) && RefBelow(s, r)
    ensures Grows(s, AttachTo(u, p, c, r, flags), p) && FreshRefs(s, AttachTo(u, p, c, r, flags))
  {
    hide IsSuffix, CanAttach, Attach;
    var w := AttachTo(u, p, c, r, flags);
    AttachCells(u, p, c, r, flags);
    ExtendsTransitive(s, t, u);
    SuffixLength(s.heap, t.heap);
    forall i, a | |s.cells| <= i < |w.cells|
      ensures RefBelow(s, Ref(w.cells[i], a))
    {
      assert RefBelow(t, Ref(u.cells[i], a));
    }
  }

  lemma MemberSize(t: State, u: State, m: Member)
    requires |u.cells| == |t.cells| + Nodes(m.value) && |u.heap| == |t.heap| + |m.key| + Strings(m.value)
    requires u.capacity == t.capacity
    ensures Remaining(u) == Remaining(t) - |m.key| - Footprint(m.value)
  {
  }
}

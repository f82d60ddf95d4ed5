/** How the cloner lays a copy out, and that the copy denotes what its source denotes. */
module Clone {
  import opened Base
  import opened Json
  import opened Forest
  import opened Dom
  import opened Ops
  import opened Build
  import Text
  import Utf8

  // ---------- the layout ----------

  /** The string a node holds as its value. */
  function PayloadText(s: State, info: Info): bytes {
    if info.kind == String && info.payload.PString? then View(s, info.payload.ref) else []
  }

  /** The contents of a copy before it has a key. Its key flags are the source's, whatever becomes of the key. */
  function CopiedInfo(d: State, s: State, info: Info): Info {
    var payload := if info.kind == String then PString(NewRef(d, PayloadText(s, info))) else info.payload;
    info.(payload := payload, key := NO_STRING)
  }

  /** clone_node without a key. */
  function CloneNode(d: State, s: State, info: Info): (t: State)
    ensures |t.cells| == |d.cells| + 1
  {
    AddNode(if info.kind == String then AddString(d, PayloadText(s, info)) else d, CopiedInfo(d, s, info))
  }

  /** clone_node and the link below `y`; members of objects take their key along. */
  function CloneKid(d: State, s: State, x: nat, c: nat, y: nat): (t: State)
    requires x < |s.cells| && c < |s.cells| && y < |d.cells|
    ensures |t.cells| == |d.cells| + 1
  {
    var o := s.cells[x].info.kind == Object;
    var t := CloneNode(d, s, s.cells[c].info);
    AttachTo(PlantKey(t, o, KeyOf(s, x, c)), y, |d.cells|, KeyRef(t, o, KeyOf(s, x, c)), s.cells[c].info.keyFlags)
  }

  /** The children of `x` from the `k`-th on, with everything below them, copied below `y`. */
  ghost function CloneKids(d: State, s: State, x: nat, y: nat, k: nat): (t: State)
    requires IsForest(s.cells) && x < |s.cells| && k <= |s.cells[x].kids| && y < |d.cells|
    ensures |t.cells| >= |d.cells|
    decreases RankOf(s.cells)[x], |s.cells[x].kids| - k
  {
    if k == |s.cells[x].kids| then d
    else
      KidValid(s, x, k);
      var c := s.cells[x].kids[k];
      CloneKids(CloneKids(CloneKid(d, s, x, c, y), s, c, |d.cells|, 0), s, x, y, k + 1)
  }

  /** duplicate with recursion. */
  ghost function CloneTree(d: State, s: State, x: nat): State
    requires IsForest(s.cells) && x < |s.cells|
  {
    CloneKids(CloneNode(d, s, s.cells[x].info), s, x, |d.cells|, 0)
  }

  // ---------- one node ----------

  /** A node without its children. */
  function Shallow(s: State, x: nat): Json
    requires x < |s.cells|
  {
    var info := s.cells[x].info;
    if IsContainer(info.kind) then JContainer(info.kind == Object, []) else Leaf(s, info)
  }

  lemma ShallowSize(s: State, x: nat)
    requires x < |s.cells|
    ensures Nodes(Shallow(s, x)) == 1 && Strings(Shallow(s, x)) == |PayloadText(s, s.cells[x].info)|
  {
  }

  lemma CloneNodeRight(d: State, s: State, x: nat)
    requires Inv(d) && Inv(s) && x < |s.cells| && Footprint(Shallow(s, x)) <= Remaining(d)
    ensures Planted(d, CloneNode(d, s, s.cells[x].info), Shallow(s, x))
    ensures CloneNode(d, s, s.cells[x].info).cells[|d.cells|] == Cell(CopiedInfo(d, s, s.cells[x].info), INVALID_ID, [])
  {
    hide IsSuffix, Shape, Acyclic, Disjoint, KeysOk, Apart, View, Live, Utf8.Valid, Text.Flags, FreshRefs, AddCell,
         Unclaimed;
    var info := s.cells[x].info;
    ShallowSize(s, x);
    assert InfoOk(s, info);
    var data := PayloadText(s, info);
    if info.kind == String {
      var t := AddString(d, data);
      AddStringRight(d, data);
      var copied := CopiedInfo(d, s, info);
      AddNodeRight(t, copied);
      ExtendsTransitive(d, t, AddNode(t, copied));
      AddedFresh(d, AddNode(t, copied), copied);
      assert Leaf(t, copied) == JString(data) == Shallow(s, x);
    } else {
      NothingClaims(d.cells);
      var copied := CopiedInfo(d, s, info);
      AddNodeRight(d, copied);
      AddedFresh(d, AddNode(d, copied), copied);
      assert Leaf(d, copied) == Leaf(s, info);
    }
  }

  // ---------- one child ----------

  lemma AncestorHasKids(cells: Cells, c: nat, y: nat)
    requires IsForest(cells) && c < |cells| && c != y && IsAncestor(cells, c, y)
    ensures cells[c].kids != []
  {
    var d: nat :| Climb(cells, y, d) == c;
    var z := Climb(cells, y, d - 1);
    assert cells[z].parent == c;
  }

  /** What a copied child adds to the destination, before its own children follow. */
  ghost predicate KidAdded(d: State, t: State, s: State, x: nat, c: nat, y: nat)
    requires IsForest(d.cells) && IsForest(s.cells) && x < |s.cells| && c < |s.cells| && y < |d.cells|
  {
    && Inv(t) && Grows(d, t, y) && FreshRefs(d, t)
    && |t.cells| == |d.cells| + 1 && |t.heap| == |d.heap| + |KeyOf(s, x, c)| + Strings(Shallow(s, c))
    && t.cells[y].kids == d.cells[y].kids + [|d.cells|]
    && t.cells[|d.cells|].parent == y && t.cells[|d.cells|].kids == []
    && t.cells[|d.cells|].info.kind == s.cells[c].info.kind
    && Members(t, y, 0) == Members(d, y, 0) + [Member(KeyOf(s, x, c), Shallow(s, c))]
  }

  lemma CloneKidRight(d: State, s: State, x: nat, c: nat, y: nat)
    requires Inv(d) && Inv(s) && x < |s.cells| && c < |s.cells| && s.cells[c].parent == x
    requires y < |d.cells| && d.cells[y].info.kind == s.cells[x].info.kind && IsContainer(s.cells[x].info.kind)
    requires |KeyOf(s, x, c)| + Footprint(Shallow(s, c)) <= Remaining(d)
    ensures KidAdded(d, CloneKid(d, s, x, c, y), s, x, c, y)
  {
    hide IsSuffix, Shape, Acyclic, Disjoint, KeysOk, InfosOk, Apart, View, Live, StringOk, FreshRefs, AddCell,
         Unclaimed, Denote,
         Members, CloneNode, CopiedInfo, PlantKey, KeyRef, Shallow, KeyOf, Attach, Leaf, RefBelow;
    var o, key, id, flags := s.cells[x].info.kind == Object, KeyOf(s, x, c), |d.cells|, s.cells[c].info.keyFlags;
    var t := CloneNode(d, s, s.cells[c].info);
    ShallowSize(s, c);
    CloneNodeRight(d, s, c);
    CopiedKind(d, s, s.cells[c].info);
    SourceKey(s, x, c);
    PlantKeyRight(t, o, key);
    var u, r := PlantKey(t, o, key), KeyRef(t, o, key);
    ExtendsTransitive(d, t, u);
    ExtendsDenotes(d, u, y);
    ExtendsDenotes(t, u, id);
    assert u.cells[y] == d.cells[y] && u.cells[id] == t.cells[id];
    if IsAncestor(u.cells, id, y) {
      AncestorHasKids(u.cells, id, y);
    }
    AttachInv(u, y, id, r, flags);
    AttachAppends(u, y, id, r, flags);
    AttachCells(u, y, id, r, flags);
    KidFresh(d, t, u, y, id, r, flags);
  }

  lemma CopiedKind(d: State, s: State, info: Info)
    ensures CopiedInfo(d, s, info).kind == info.kind
  {
  }

  /** The key of a member is stored with the right flags; an element has none. */
  lemma SourceKey(s: State, x: nat, c: nat)
    requires Inv(s) && x < |s.cells| && c < |s.cells| && s.cells[c].parent == x
    ensures if s.cells[x].info.kind == Object
            then Utf8.Valid(KeyOf(s, x, c)) && s.cells[c].info.keyFlags == Text.Flags(KeyOf(s, x, c))
            else KeyOf(s, x, c) == []
  {
    assert KeyOk(s, s.cells[c]);
  }

  lemma KidFresh(d: State, t: State, u: State, y: nat, id: nat, r: StringRef, flags: nat)
    requires Extends(d, t) && FreshRefs(d, t) && |t.cells| == |d.cells| + 1 && id == |d.cells| && y < |d.cells|
    requires Extends(t, u) && u.cells == t.cells && CanAttach(u, y, id) && RefBelow(t, r)
    ensures Grows(d, AttachTo(u, y, id, r, flags), y) && FreshRefs(d, AttachTo(u, y, id, r, flags))
  {
    hide CanAttach, Attach, IsSuffix;
    var w := AttachTo(u, y, id, r, flags);
    AttachCells(u, y, id, r, flags);
    ExtendsTransitive(d, t, u);
    SuffixLength(d.heap, t.heap);
    forall i, a | |d.cells| <= i < |w.cells|
      ensures RefBelow(d, Ref(w.cells[i], a))
    {
      assert RefBelow(d, Ref(t.cells[i], a));
    }
  }

  // ---------- everything below a node ----------

  /** Adding below `y` changes no tree that does not contain `y`. */
  lemma GrowsFrame(d: State, t: State, y: nat, x: nat)
    requires Inv(d) && IsForest(t.cells) && Grows(d, t, y) && x < |d.cells| && !IsAncestor(d.cells, x, y)
    ensures Denote(t, x) == Denote(d, x)
  {
    hide IsSuffix, Shape, Acyclic, Disjoint, KeysOk, InfosOk, Grows, IsAncestor;
    var inside := NotAbove(d.cells, y, |d.cells|);
    GrowsSame(d, t, y, inside);
    DenoteFrame(d, t, inside, x);
  }

  lemma GrowsSame(d: State, t: State, y: nat, inside: set<nat>)
    requires Inv(d) && Grows(d, t, y) && inside == NotAbove(d.cells, y, |d.cells|)
    ensures SameOn(d, t, inside)
  {
    hide IsSuffix, Acyclic, Disjoint, Apart, StringOk, IsAncestor, View, Live, Leaf;
    AncestorSelf(d.cells, y);
    forall z | z in inside
      ensures t.cells[z] == d.cells[z] && Leaf(t, t.cells[z].info) == Leaf(d, d.cells[z].info)
    {
      RefLive(d, z, false);
      LeafStable(d, t, d.cells[z]);
    }
    forall z, k | z in inside && 0 <= k < |d.cells[z].kids|
      ensures d.cells[z].kids[k] in inside && KeyOf(d, z, d.cells[z].kids[k]) == KeyOf(t, z, d.cells[z].kids[k])
    {
      var kid := d.cells[z].kids[k];
      assert d.cells[kid].parent == z;
      if IsAncestor(d.cells, kid, y) {
        AncestorUp(d.cells, kid, y);
      }
      RefLive(d, kid, true);
      ViewStable(d, t, Ref(d.cells[kid], true));
    }
  }

  /** The last child of `y` has been filled: only its value among `y`'s members changes. */
  lemma LastFilled(d: State, t: State, y: nat, id: nat)
    requires Inv(d) && Inv(t) && Grows(d, t, id) && y < |d.cells| && id < |d.cells| && y != id
    requires d.cells[y].kids != [] && d.cells[y].kids[|d.cells[y].kids| - 1] == id
    ensures var n := |d.cells[y].kids| - 1;
            && t.cells[y].kids == d.cells[y].kids
            && Members(t, y, 0) == Members(d, y, 0)[..n] + [Member(Members(d, y, 0)[n].key, Denote(t, id))]
  {
    hide IsSuffix, Acyclic, Disjoint, KeysOk, InfosOk, IsAncestor, View, Live, Denote, Members, KeyOf, Shape;
    var n := |d.cells[y].kids| - 1;
    assert t.cells[y] == d.cells[y];
    var before, now := Members(d, y, 0), Members(t, y, 0);
    forall j | 0 <= j <= n
      ensures now[j].key == before[j].key && (j < n ==> now[j] == before[j])
      ensures j == n ==> now[j].value == Denote(t, id)
    {
      MembersAt(t, y, 0, j);
      MembersAt(d, y, 0, j);
      GrowsKeepsKey(d, t, y, id, j);
      if j < n {
        SiblingNotAbove(d.cells, y, j, id);
        GrowsFrame(d, t, id, d.cells[y].kids[j]);
      }
    }
    assert now == before[..n] + [Member(before[n].key, Denote(t, id))];
  }

  lemma GrowsKeepsKey(d: State, t: State, y: nat, id: nat, j: nat)
    requires Inv(d) && Grows(d, t, id) && y < |d.cells| && j < |d.cells[y].kids| && y != id
    ensures KeyOf(t, y, d.cells[y].kids[j]) == KeyOf(d, y, d.cells[y].kids[j])
  {
    hide IsSuffix, Acyclic, Disjoint, StringOk, View, Live;
    KidValid(d, y, j);
    var kid := d.cells[y].kids[j];
    RefLive(d, kid, true);
    ViewStable(d, t, Ref(d.cells[kid], true));
  }

  lemma SiblingNotAbove(cells: Cells, y: nat, j: nat, id: nat)
    requires IsForest(cells) && y < |cells| && j < |cells[y].kids| - 1 && cells[y].kids[|cells[y].kids| - 1] == id
    ensures !IsAncestor(cells, cells[y].kids[j], id)
  {
    var z := cells[y].kids[j];
    assert cells[z].parent == y && cells[id].parent == y && z != id;
    if IsAncestor(cells, z, id) {
      var e: nat :| Climb(cells, id, e) == z;
      ClimbFirst(cells, id, e);
      assert Climb(cells, y, e - 1) == z;
      KidNotAbove(cells, y, z);
    }
  }

  /** The members of a node in front and behind. */
  lemma MembersStep(s: State, x: nat, k: nat)
    requires IsForest(s.cells) && x < |s.cells| && k < |s.cells[x].kids|
    ensures var c := s.cells[x].kids[k];
            && c < |s.cells| && s.cells[c].parent == x
            && Members(s, x, k) == [Member(KeyOf(s, x, c), Denote(s, c))] + Members(s, x, k + 1)
            && NodesOf(Members(s, x, k)) == Nodes(Denote(s, c)) + NodesOf(Members(s, x, k + 1))
            && StringsOf(Members(s, x, k)) == |KeyOf(s, x, c)| + Strings(Denote(s, c)) + StringsOf(Members(s, x, k + 1))
  {
    hide Shape, Acyclic, IsRank, Denote, KeyOf;
    KidValid(s, x, k);
    var c := s.cells[x].kids[k];
    var head, tail := [Member(KeyOf(s, x, c), Denote(s, c))], Members(s, x, k + 1);
    assert Members(s, x, k) == head + tail;
    assert (head + tail)[0] == head[0] && (head + tail)[1..] == tail;
  }

  /** A node's value is its shallow value with its children put in. */
  lemma DenoteFromShallow(s: State, x: nat)
    requires Inv(s) && x < |s.cells|
    ensures IsContainer(s.cells[x].info.kind) ==>
      Denote(s, x) == JContainer(s.cells[x].info.kind == Object, Members(s, x, 0))
    ensures !IsContainer(s.cells[x].info.kind) ==> Denote(s, x) == Shallow(s, x) && Members(s, x, 0) == []
    ensures Nodes(Denote(s, x)) == 1 + NodesOf(Members(s, x, 0))
    ensures Strings(Denote(s, x)) == Strings(Shallow(s, x)) + StringsOf(Members(s, x, 0))
  {
    hide IsSuffix, Acyclic, Disjoint, KeysOk, InfosOk, View, Live;
    if !IsContainer(s.cells[x].info.kind) {
      assert s.cells[x].kids == [];
    }
  }

  /** What CloneKids achieves. */
  ghost predicate Copied(d: State, t: State, s: State, x: nat, y: nat, k: nat)
    requires IsForest(s.cells) && x < |s.cells| && k <= |s.cells[x].kids| && y < |d.cells|
  {
    && Inv(d) && Inv(t) && Grows(d, t, y) && FreshRefs(d, t)
    && |t.cells| == |d.cells| + NodesOf(Members(s, x, k)) && |t.heap| == |d.heap| + StringsOf(Members(s, x, k))
    && Members(t, y, 0) == Members(d, y, 0) + Members(s, x, k)
  }

  /** Copying below `y` what stands below `x`. */
  lemma {:induction false} CloneKidsRight(d: State, s: State, x: nat, y: nat, k: nat)
    requires Inv(d) && Inv(s) && x < |s.cells| && k <= |s.cells[x].kids| && y < |d.cells|
    requires d.cells[y].info.kind == s.cells[x].info.kind
    requires FootprintOf(Members(s, x, k)) <= Remaining(d)
    ensures Copied(d, CloneKids(d, s, x, y, k), s, x, y, k)
    decreases RankOf(s.cells)[x], |s.cells[x].kids| - k
  {
    hide IsSuffix, Shape, Acyclic, Disjoint, KeysOk, InfosOk, CloneKid, FreshRefs, Grows, KidAdded, Copied, Members,
         Denote, KeyOf, Shallow, IsRank;
    if k == |s.cells[x].kids| {
      CopiedNothing(d, s, x, y, k);
    } else {
      var c, id := s.cells[x].kids[k], |d.cells|;
      KidValid(s, x, k);
      MembersStep(s, x, k);
      DenoteFromShallow(s, c);
      ShallowSize(s, c);
      HasKids(s, x, k);
      CloneKidRight(d, s, x, c, y);
      var t := CloneKid(d, s, x, c, y);
      KidAddedFacts(d, t, s, x, c, y);
      CloneKidsRight(t, s, c, id, 0);
      var u := CloneKids(t, s, c, id, 0);
      CopiedOne(d, t, u, s, x, c, y, k);
      CloneKidsRight(u, s, x, y, k + 1);
      CopiedRest(d, u, CloneKids(u, s, x, y, k + 1), s, x, y, k);
    }
  }

  lemma HasKids(s: State, x: nat, k: nat)
    requires IsForest(s.cells) && x < |s.cells| && k < |s.cells[x].kids|
    ensures IsContainer(s.cells[x].info.kind)
  {
  }

  lemma CopiedNothing(d: State, s: State, x: nat, y: nat, k: nat)
    requires Inv(d) && IsForest(s.cells) && x < |s.cells| && k == |s.cells[x].kids| && y < |d.cells|
    ensures Copied(d, d, s, x, y, k)
  {
    hide IsSuffix, Shape, Acyclic, Disjoint, KeysOk, InfosOk;
    NothingFresh(d, y);
    assert Members(d, y, 0) + [] == Members(d, y, 0);
  }

  lemma KidAddedFacts(d: State, t: State, s: State, x: nat, c: nat, y: nat)
    requires IsForest(d.cells) && IsForest(s.cells) && x < |s.cells| && c < |s.cells| && y < |d.cells|
    requires KidAdded(d, t, s, x, c, y)
    ensures Inv(t) && |d.cells| < |t.cells| && t.cells[|d.cells|].info.kind == s.cells[c].info.kind
    ensures t.cells[y].info == d.cells[y].info
    ensures Remaining(t) == Remaining(d) - NODE_BYTES - |KeyOf(s, x, c)| - Strings(Shallow(s, c))
  {
    hide IsSuffix, Inv, FreshRefs, Members, KeyOf, Shallow;
  }

  /** After one child and everything below it. */
  ghost predicate OneCopied(d: State, u: State, s: State, x: nat, c: nat, y: nat)
    requires IsForest(s.cells) && x < |s.cells| && c < |s.cells| && y < |d.cells|
  {
    && Inv(d) && Inv(u) && Grows(d, u, y) && FreshRefs(d, u)
    && |u.cells| == |d.cells| + Nodes(Denote(s, c))
    && |u.heap| == |d.heap| + |KeyOf(s, x, c)| + Strings(Denote(s, c))
    && Members(u, y, 0) == Members(d, y, 0) + [Member(KeyOf(s, x, c), Denote(s, c))]
  }

  lemma CopiedOne(d: State, t: State, u: State, s: State, x: nat, c: nat, y: nat, k: nat)
    requires Inv(d) && Inv(s) && x < |s.cells| && c < |s.cells| && y < |d.cells| && KidAdded(d, t, s, x, c, y)
    requires |d.cells| < |t.cells| && Copied(t, u, s, c, |d.cells|, 0)
    ensures OneCopied(d, u, s, x, c, y) && u.cells[y].info == d.cells[y].info
    ensures Remaining(u) == Remaining(d) - |KeyOf(s, x, c)| - Footprint(Denote(s, c))
  {
    hide IsSuffix, Shape, Acyclic, Disjoint, KeysOk, InfosOk, FreshRefs, Members, Denote, KeyOf, Shallow, Leaf;
    var id := |d.cells|;
    var n := |d.cells[y].kids|;
    DenoteFromShallow(s, c);
    DenoteFromShallow(u, id);
    assert t.cells[id].kids == [];
    NoMembers(t, id);
    LastFilled(t, u, y, id);
    assert Members(t, y, 0)[..n] == Members(d, y, 0);
    assert Denote(u, id) == Denote(s, c) by {
      if IsContainer(s.cells[c].info.kind) {
        assert [] + Members(s, c, 0) == Members(s, c, 0);
      } else {
        ShallowKept(d, t, u, s, x, c, y);
      }
    }
    GrowsBelow(d, t, u, y, id);
    FreshAfter(d, t, u, id);
  }

  lemma NoMembers(s: State, x: nat)
    requires IsForest(s.cells) && x < |s.cells| && s.cells[x].kids == []
    ensures Members(s, x, 0) == []
  {
  }

  /** A childless copy keeps its value. */
  lemma ShallowKept(d: State, t: State, u: State, s: State, x: nat, c: nat, y: nat)
    requires Inv(d) && Inv(s) && x < |s.cells| && c < |s.cells| && y < |d.cells| && KidAdded(d, t, s, x, c, y)
    requires |d.cells| < |t.cells| && Copied(t, u, s, c, |d.cells|, 0) && !IsContainer(s.cells[c].info.kind)
    ensures Denote(u, |d.cells|) == Shallow(s, c)
  {
    hide IsSuffix, Acyclic, Disjoint, FreshRefs, Denote, KeyOf, Shallow, View, Live, StringOk;
    var id := |d.cells|;
    var n := |d.cells[y].kids|;
    MembersAt(t, y, 0, n);
    assert t.cells[y].kids[n] == id;
    assert Members(t, y, 0)[n].value == Shallow(s, c);
    DenoteFromShallow(t, id);
    DenoteFromShallow(u, id);
    assert u.cells[id].info == t.cells[id].info;
    RefLive(t, id, false);
    ViewStable(t, u, Ref(t.cells[id], false));
    SameLeaf(t, u, id);
  }

  lemma SameLeaf(t: State, u: State, id: nat)
    requires id < |t.cells| && id < |u.cells| && u.cells[id].info == t.cells[id].info
    requires View(t, Ref(t.cells[id], false)) == View(u, Ref(t.cells[id], false))
    ensures Shallow(t, id) == Shallow(u, id)
  {
    hide View;
  }

  lemma GrowsBelow(d: State, t: State, u: State, y: nat, id: nat)
    requires Grows(d, t, y) && Grows(t, u, id) && id >= |d.cells|
    ensures Grows(d, u, y)
  {
    hide IsSuffix;
    SuffixTransitive(d.heap, t.heap, u.heap);
  }

  lemma FreshAfter(d: State, t: State, u: State, id: nat)
    requires IsSuffix(d.heap, t.heap) && d.capacity == t.capacity && |d.cells| <= |t.cells|
    requires Grows(t, u, id) && FreshRefs(d, t) && FreshRefs(t, u)
    ensures FreshRefs(d, u)
  {
    hide IsSuffix, FreshRefs;
    SuffixLength(d.heap, t.heap);
    FreshTransitive(d, t, u);
  }

  lemma CopiedRest(d: State, u: State, w: State, s: State, x: nat, y: nat, k: nat)
    requires IsForest(s.cells) && x < |s.cells| && k < |s.cells[x].kids| && y < |d.cells|
    requires s.cells[x].kids[k] < |s.cells|
    requires OneCopied(d, u, s, x, s.cells[x].kids[k], y) && y < |u.cells| && Copied(u, w, s, x, y, k + 1)
    ensures Copied(d, w, s, x, y, k)
  {
    hide IsSuffix, Shape, Acyclic, Disjoint, KeysOk, InfosOk, FreshRefs, Members, Denote, KeyOf;
    var c := s.cells[x].kids[k];
    MembersStep(s, x, k);
    GrowsTransitive(d, u, w, y);
    FreshAfter(d, u, w, y);
    Associate(Members(d, y, 0), [Member(KeyOf(s, x, c), Denote(s, c))], Members(s, x, k + 1));
  }

  // ---------- deep copy ----------

  /** A deep copy is a new tree denoting what the source denotes, in one block of fresh nodes. */
  lemma CloneTreeRight(d: State, s: State, x: nat)
    requires Inv(d) && Inv(s) && x < |s.cells| && Footprint(Denote(s, x)) <= Remaining(d)
    ensures Planted(d, CloneTree(d, s, x), Denote(s, x))
  {
    hide IsSuffix, Shape, Acyclic, Disjoint, KeysOk, InfosOk, FreshRefs, Members, Denote, KeyOf, Shallow, Leaf,
         CloneNode, CloneKids, CopiedInfo, Grows;
    var t, id := CloneNode(d, s, s.cells[x].info), |d.cells|;
    DenoteFromShallow(s, x);
    ShallowSize(s, x);
    CloneNodeRight(d, s, x);
    CopiedKind(d, s, s.cells[x].info);
    var u := CloneTree(d, s, x);
    if IsContainer(s.cells[x].info.kind) {
      CloneKidsRight(t, s, x, id, 0);
      NoMembers(t, id);
      DenoteFromShallow(u, id);
      GrowsExtends(d, t, u, id);
      FreshAfter(d, t, u, id);
      GrowsKeeps(t, u, id);
      assert [] + Members(s, x, 0) == Members(s, x, 0);
      assert Denote(u, id) == Denote(s, x);
    } else {
      CloneChildless(t, s, x, id);
    }
  }

  lemma GrowsKeeps(t: State, u: State, id: nat)
    requires Grows(t, u, id)
    ensures id < |u.cells| && u.cells[id].parent == t.cells[id].parent && u.cells[id].info == t.cells[id].info
  {
    hide IsSuffix;
  }

  lemma CloneChildless(d: State, s: State, x: nat, y: nat)
    requires IsForest(s.cells) && x < |s.cells| && y < |d.cells| && !IsContainer(s.cells[x].info.kind)
    ensures CloneKids(d, s, x, y, 0) == d
  {
    assert s.cells[x].kids == [];
  }
}

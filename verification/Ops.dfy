/** The four primitive changes of a slab's contents, and what each does to the invariant and to what trees denote. */
module Ops {
  import opened Base
  import opened Json
  import opened Forest
  import opened Dom
  import Text
  import Utf8

  // ---------- a stored string ----------

  function NewRef(s: State, data: bytes): StringRef {
    StringRef(s.capacity - |s.heap| - |data|, |data|)
  }

  function AddString(s: State, data: bytes): State {
    s.(heap := data + s.heap)
  }

  lemma AddStringRight(s: State, data: bytes)
    requires Inv(s) && |data| <= Remaining(s)
    ensures Inv(AddString(s, data)) && Extends(s, AddString(s, data))
    ensures Live(AddString(s, data), NewRef(s, data)) && View(AddString(s, data), NewRef(s, data)) == data
    ensures Unclaimed(s.cells, NewRef(s, data))
  {
    var t, r := AddString(s, data), NewRef(s, data);
    AddStringExtends(s, data);
    AddStringInv(s, data);
    forall i, isKey | 0 <= i < |s.cells|
      ensures Apart(Ref(s.cells[i], isKey), r)
    {
      RefLive(s, i, isKey);
    }
  }

  lemma AddStringExtends(s: State, data: bytes)
    requires Inv(s) && |data| <= Remaining(s)
    ensures Extends(s, AddString(s, data))
    ensures Live(AddString(s, data), NewRef(s, data)) && View(AddString(s, data), NewRef(s, data)) == data
  {
    hide Inv;
    var t := AddString(s, data);
    SuffixConcat(data, s.heap);
    if data != [] {
      assert t.heap[0..|data|] == data;
    }
  }

  lemma AddStringInv(s: State, data: bytes)
    requires Inv(s) && |data| <= Remaining(s) && Extends(s, AddString(s, data))
    ensures Inv(AddString(s, data))
  {
    hide Disjoint, IsForest, Utf8.Valid, Text.Flags, Live, View;
    var t := AddString(s, data);
    forall i | 0 <= i < |s.cells|
      ensures InfoOk(t, t.cells[i].info) && KeyOk(t, t.cells[i])
    {
      assert InfoOk(s, s.cells[i].info) && KeyOk(s, s.cells[i]);
      InfoStable(s, t, s.cells[i].info);
      KeyStable(s, t, s.cells[i]);
    }
  }

  /** Growth keeps a string, a payload and a key as good as they were. */
  lemma StringStable(s: State, t: State, r: StringRef, flags: nat)
    requires Extends(s, t) && StringOk(s, r, flags)
    ensures StringOk(t, r, flags)
  {
    hide Utf8.Valid, Text.Flags, Live, View;
    ViewStable(s, t, r);
  }

  lemma InfoStable(s: State, t: State, info: Info)
    requires Extends(s, t) && InfoOk(s, info)
    ensures InfoOk(t, info)
  {
    hide StringOk;
    if info.kind == String {
      StringStable(s, t, info.payload.ref, info.valueFlags);
    }
  }

  lemma KeyStable(s: State, t: State, c: Cell)
    requires Extends(s, t) && KeyOk(s, c) && s.cells == t.cells
    ensures KeyOk(t, c)
  {
    hide StringOk;
    if c.parent < |s.cells| && s.cells[c.parent].info.kind == Object {
      StringStable(s, t, c.info.key, c.info.keyFlags);
    }
  }

  // ---------- a new root ----------

  function AddNode(s: State, info: Info): State {
    s.(cells := AddCell(s.cells, info))
  }

  lemma AddNodeRight(s: State, info: Info)
    requires Inv(s) && NODE_BYTES <= Remaining(s)
    requires InfoOk(s, info) && info.key == NO_STRING && Unclaimed(s.cells, Ref(Cell(info, INVALID_ID, []), false))
    ensures Inv(AddNode(s, info)) && Extends(s, AddNode(s, info))
    ensures Denote(AddNode(s, info), |s.cells|) ==
      if IsContainer(info.kind) then JContainer(info.kind == Object, []) else Leaf(s, info)
  {
    SuffixSelf(s.heap);
    AddCellForest(s.cells, info);
    AddNodeInfos(s, info);
    AddNodeDisjoint(s, info);
    var t := AddNode(s, info);
    assert t.cells[|s.cells|] == Cell(info, INVALID_ID, []);
    assert Members(t, |s.cells|, 0) == [];
    assert Leaf(t, info) == Leaf(s, info);
  }

  lemma AddNodeInfos(s: State, info: Info)
    requires Inv(s) && InfoOk(s, info) && info.key == NO_STRING
    ensures InfosOk(AddNode(s, info)) && KeysOk(AddNode(s, info))
  {
    hide Disjoint, Acyclic, Live, View, Utf8.Valid, Text.Flags, KidsDistinct, KidsOk;
    var t := AddNode(s, info);
    forall i | 0 <= i < |t.cells|
      ensures InfoOk(t, t.cells[i].info) && KeyOk(t, t.cells[i])
    {
      if i < |s.cells| {
        assert t.cells[i] == s.cells[i];
        assert InfoOk(s, s.cells[i].info) && KeyOk(s, s.cells[i]);
        assert s.cells[i].parent != INVALID_ID ==> s.cells[i].parent < |s.cells|;
      }
      SameHeap(s, t);
    }
  }

  /** Strings depend on the heap alone. */
  lemma SameHeap(s: State, t: State)
    requires s.heap == t.heap && s.capacity == t.capacity
    ensures forall r, flags :: StringOk(s, r, flags) == StringOk(t, r, flags)
    ensures forall r :: View(s, r) == View(t, r) && Live(s, r) == Live(t, r)
  {
  }

  lemma AddNodeDisjoint(s: State, info: Info)
    requires Disjoint(s.cells) && info.key == NO_STRING && Unclaimed(s.cells, Ref(Cell(info, INVALID_ID, []), false))
    ensures Disjoint(AddCell(s.cells, info))
  {
    var r, n := AddCell(s.cells, info), |s.cells|;
    var c := Cell(info, INVALID_ID, []);
    assert r[n] == c && Ref(c, true) == NO_STRING;
    forall i, j, a, b | 0 <= i < |r| && 0 <= j < |r| && (i != j || a != b)
      ensures Apart(Ref(r[i], a), Ref(r[j], b))
    {
      if i < n { assert r[i] == s.cells[i]; }
      if j < n { assert r[j] == s.cells[j]; }
    }
  }

  // ---------- linking ----------

  function AttachTo(s: State, p: nat, c: nat, key: StringRef, keyFlags: nat): State
    requires p < |s.cells| && c < |s.cells|
  {
    s.(cells := Attach(s.cells, p, c, key, keyFlags))
  }

  /** `key` may become the key of a new child of `p`. */
  ghost predicate KeyFits(s: State, p: nat, key: StringRef, keyFlags: nat)
    requires p < |s.cells|
  {
    if s.cells[p].info.kind == Object then StringOk(s, key, keyFlags) && Unclaimed(s.cells, key) else key == NO_STRING
  }

  ghost predicate CanAttach(s: State, p: nat, c: nat) {
    && p < |s.cells| && c < |s.cells| && IsContainer(s.cells[p].info.kind)
    && s.cells[c].parent == INVALID_ID && !IsAncestor(s.cells, c, p)
  }

  /** What Attach changes, position by position. */
  lemma AttachCells(s: State, p: nat, c: nat, key: StringRef, keyFlags: nat)
    requires CanAttach(s, p, c)
    ensures p != c
    ensures var t := AttachTo(s, p, c, key, keyFlags);
            && t.cells[p] == s.cells[p].(kids := s.cells[p].kids + [c])
            && t.cells[c] == s.cells[c].(parent := p, info := s.cells[c].info.(key := key, keyFlags := keyFlags))
            && forall x :: 0 <= x < |s.cells| && x != p && x != c ==> t.cells[x] == s.cells[x]
  {
    AncestorSelf(s.cells, p);
  }

  /** Accepted links keep the invariant. */
  lemma AttachInv(s: State, p: nat, c: nat, key: StringRef, keyFlags: nat)
    requires Inv(s) && CanAttach(s, p, c) && KeyFits(s, p, key, keyFlags)
    ensures Inv(AttachTo(s, p, c, key, keyFlags))
  {
    hide StringOk, Disjoint, InfosOk, KeysOk, Unclaimed;
    AttachForest(s.cells, p, c, key, keyFlags);
    AttachInfos(s, p, c, key, keyFlags);
    AttachDisjoint(s, p, c, key, keyFlags);
  }

  lemma AttachInfos(s: State, p: nat, c: nat, key: StringRef, keyFlags: nat)
    requires Inv(s) && CanAttach(s, p, c) && KeyFits(s, p, key, keyFlags)
    ensures InfosOk(AttachTo(s, p, c, key, keyFlags)) && KeysOk(AttachTo(s, p, c, key, keyFlags))
  {
    hide StringOk, Disjoint, Shape, Acyclic, Unclaimed, Attach;
    var t := AttachTo(s, p, c, key, keyFlags);
    AttachCells(s, p, c, key, keyFlags);
    SameHeap(s, t);
    forall i | 0 <= i < |t.cells|
      ensures InfoOk(t, t.cells[i].info) && KeyOk(t, t.cells[i])
    {
      assert InfoOk(s, s.cells[i].info) && KeyOk(s, s.cells[i]);
    }
  }

  lemma AttachDisjoint(s: State, p: nat, c: nat, key: StringRef, keyFlags: nat)
    requires Inv(s) && CanAttach(s, p, c) && KeyFits(s, p, key, keyFlags)
    ensures Disjoint(AttachTo(s, p, c, key, keyFlags).cells)
  {
    hide StringOk, IsForest, InfosOk, KeysOk, CountersOk, Attach;
    var r := AttachTo(s, p, c, key, keyFlags).cells;
    AttachCells(s, p, c, key, keyFlags);
    assert forall i, a :: 0 <= i < |r| && (i != c || !a) ==> Ref(r[i], a) == Ref(s.cells[i], a);
    assert Ref(r[c], true) == key;
    forall i, j, a, b | 0 <= i < |r| && 0 <= j < |r| && (i != j || a != b)
      ensures Apart(Ref(r[i], a), Ref(r[j], b))
    {
    }
  }

  /** The nodes that are not above `p`. */
  ghost function NotAbove(cells: Cells, p: nat, n: nat): (d: set<nat>)
    ensures forall y :: y in d <==> 0 <= y < n && !IsAncestor(cells, y, p)
  {
    if n == 0 then {}
    else NotAbove(cells, p, n - 1) + (if IsAncestor(cells, n - 1, p) then {} else {n - 1})
  }

  /** Linking under `p` changes no tree that does not contain `p`. */
  lemma AttachFrame(s: State, p: nat, c: nat, key: StringRef, keyFlags: nat, x: nat)
    requires Inv(s) && CanAttach(s, p, c) && KeyFits(s, p, key, keyFlags)
    requires x < |s.cells| && !IsAncestor(s.cells, x, p)
    ensures IsForest(AttachTo(s, p, c, key, keyFlags).cells)
    ensures Denote(AttachTo(s, p, c, key, keyFlags), x) == Denote(s, x)
  {
    hide StringOk, Disjoint, InfosOk, KeysOk, IsAncestor, Attach;
    var t := AttachTo(s, p, c, key, keyFlags);
    var d := NotAbove(s.cells, p, |s.cells|);
    AttachForest(s.cells, p, c, key, keyFlags);
    AttachSame(s, p, c, key, keyFlags, d);
    DenoteFrame(s, t, d, x);
  }

  lemma AttachSame(s: State, p: nat, c: nat, key: StringRef, keyFlags: nat, d: set<nat>)
    requires Inv(s) && CanAttach(s, p, c) && d == NotAbove(s.cells, p, |s.cells|)
    ensures SameOn(s, AttachTo(s, p, c, key, keyFlags), d)
  {
    hide StringOk, Disjoint, InfosOk, KeysOk, IsAncestor, Attach, Leaf, Acyclic, View;
    var t := AttachTo(s, p, c, key, keyFlags);
    AttachCells(s, p, c, key, keyFlags);
    AncestorSelf(s.cells, p);
    SameHeap(s, t);
    LeafIgnoresKey(s, t, s.cells[c].info, key, keyFlags);
    forall y | y in d
      ensures t.cells[y].kids == s.cells[y].kids && t.cells[y].info.kind == s.cells[y].info.kind
      ensures Leaf(t, t.cells[y].info) == Leaf(s, s.cells[y].info)
    {
      LeafIgnoresKey(s, t, s.cells[y].info, s.cells[y].info.key, s.cells[y].info.keyFlags);
    }
    forall y, k | y in d && 0 <= k < |s.cells[y].kids|
      ensures s.cells[y].kids[k] in d && KeyOf(s, y, s.cells[y].kids[k]) == KeyOf(t, y, s.cells[y].kids[k])
    {
      var kid := s.cells[y].kids[k];
      assert s.cells[kid].parent == y;
      if IsAncestor(s.cells, kid, p) {
        AncestorUp(s.cells, kid, p);
      }
    }
  }

  lemma LeafIgnoresKey(s: State, t: State, info: Info, key: StringRef, keyFlags: nat)
    requires s.heap == t.heap && s.capacity == t.capacity
    ensures Leaf(t, info.(key := key, keyFlags := keyFlags)) == Leaf(s, info)
  {
  }

  /** The parent's children become the old ones and the new child, under its key. */
  lemma AttachAppends(s: State, p: nat, c: nat, key: StringRef, keyFlags: nat)
    requires Inv(s) && CanAttach(s, p, c) && KeyFits(s, p, key, keyFlags)
    ensures var t := AttachTo(s, p, c, key, keyFlags);
            var name := if s.cells[p].info.kind == Object then View(s, key) else [];
            && IsForest(t.cells)
            && Members(t, p, 0) == Members(s, p, 0) + [Member(name, Denote(s, c))]
  {
    AttachForest(s.cells, p, c, key, keyFlags);
    AttachCells(s, p, c, key, keyFlags);
    AttachAppendsFrom(s, p, c, key, keyFlags, 0);
  }

  lemma {:induction false} AttachAppendsFrom(s: State, p: nat, c: nat, key: StringRef, keyFlags: nat, k: nat)
    requires Inv(s) && CanAttach(s, p, c) && KeyFits(s, p, key, keyFlags) && k <= |s.cells[p].kids|
    ensures var t := AttachTo(s, p, c, key, keyFlags);
            var name := if s.cells[p].info.kind == Object then View(s, key) else [];
            && IsForest(t.cells) && t.cells[p].kids == s.cells[p].kids + [c]
            && Members(t, p, k) == Members(s, p, k) + [Member(name, Denote(s, c))]
    decreases |s.cells[p].kids| - k
  {
    hide StringOk, Disjoint, InfosOk, KeysOk, IsAncestor, Attach, Leaf, View, Acyclic, Unclaimed;
    var t := AttachTo(s, p, c, key, keyFlags);
    var name := if s.cells[p].info.kind == Object then View(s, key) else [];
    var last := Member(name, Denote(s, c));
    AttachForest(s.cells, p, c, key, keyFlags);
    AttachCells(s, p, c, key, keyFlags);
    SameHeap(s, t);
    assert t.cells[p].kids == s.cells[p].kids + [c];
    if k == |s.cells[p].kids| {
      AttachFrame(s, p, c, key, keyFlags, c);
      assert t.cells[p].kids[k] == c;
      assert Members(t, p, k) == [last] + Members(t, p, k + 1) == [last];
      assert Members(s, p, k) == [];
    } else {
      var kid := s.cells[p].kids[k];
      assert t.cells[p].kids[k] == kid && s.cells[kid].parent == p && kid != c;
      KidNotAbove(s.cells, p, kid);
      AttachFrame(s, p, c, key, keyFlags, kid);
      AttachAppendsFrom(s, p, c, key, keyFlags, k + 1);
      var first := Member(KeyOf(s, p, kid), Denote(s, kid));
      assert Members(s, p, k) == [first] + Members(s, p, k + 1);
      assert KeyOf(t, p, kid) == KeyOf(s, p, kid) by {
        KidNotParent(s.cells, p, kid);
      }
      assert Members(t, p, k) == [first] + Members(t, p, k + 1);
      Associate([first], Members(s, p, k + 1), [last]);
    }
  }

  // ---------- unlinking ----------

  function DetachFrom(s: State, p: nat, k: nat): State
    requires p < |s.cells| && k < |s.cells[p].kids| && s.cells[p].kids[k] < |s.cells|
  {
    s.(cells := Detach(s.cells, p, k))
  }

  ghost predicate CanDetach(s: State, p: nat, k: nat) {
    Inv(s) && p < |s.cells| && k < |s.cells[p].kids| && s.cells[p].kids[k] < |s.cells|
  }

  /** Unlinking keeps the invariant. */
  lemma DetachInv(s: State, p: nat, k: nat)
    requires CanDetach(s, p, k)
    ensures Inv(DetachFrom(s, p, k))
  {
    hide StringOk, InfosOk, KeysOk, Disjoint, Detach;
    DetachForest(s.cells, p, k);
    DetachInfos(s, p, k);
  }

  lemma DetachInfos(s: State, p: nat, k: nat)
    requires CanDetach(s, p, k)
    ensures InfosOk(DetachFrom(s, p, k)) && KeysOk(DetachFrom(s, p, k)) && Disjoint(DetachFrom(s, p, k).cells)
  {
    hide StringOk, KidsDistinct, ParentsOk, Acyclic, Detach;
    var t := DetachFrom(s, p, k);
    DetachCells(s.cells, p, k);
    SameHeap(s, t);
    forall i | 0 <= i < |t.cells|
      ensures InfoOk(t, t.cells[i].info) && KeyOk(t, t.cells[i])
    {
      assert InfoOk(s, s.cells[i].info) && KeyOk(s, s.cells[i]);
    }
    assert forall i, a :: 0 <= i < |t.cells| ==>
        Ref(t.cells[i], a) == Ref(s.cells[i], a) || Ref(t.cells[i], a).length == 0;
  }

  /** Unlinking under `p` changes no tree that does not contain `p`; the child itself keeps its value. */
  lemma DetachFrame(s: State, p: nat, k: nat, x: nat)
    requires CanDetach(s, p, k) && x < |s.cells| && !IsAncestor(s.cells, x, p)
    ensures IsForest(DetachFrom(s, p, k).cells)
    ensures Denote(DetachFrom(s, p, k), x) == Denote(s, x)
  {
    hide StringOk, Disjoint, InfosOk, KeysOk, IsAncestor, Detach;
    var d := NotAbove(s.cells, p, |s.cells|);
    DetachForest(s.cells, p, k);
    DetachSame(s, p, k, d);
    DenoteFrame(s, DetachFrom(s, p, k), d, x);
  }

  lemma DetachSame(s: State, p: nat, k: nat, d: set<nat>)
    requires CanDetach(s, p, k) && d == NotAbove(s.cells, p, |s.cells|)
    ensures SameOn(s, DetachFrom(s, p, k), d)
  {
    hide StringOk, Disjoint, InfosOk, KeysOk, IsAncestor, Detach, Leaf, Acyclic, View;
    var t := DetachFrom(s, p, k);
    DetachCells(s.cells, p, k);
    AncestorSelf(s.cells, p);
    SameHeap(s, t);
    var c := s.cells[p].kids[k];
    LeafIgnoresKey(s, t, s.cells[c].info, NO_STRING, 0);
    forall y | y in d
      ensures t.cells[y].kids == s.cells[y].kids && t.cells[y].info.kind == s.cells[y].info.kind
      ensures Leaf(t, t.cells[y].info) == Leaf(s, s.cells[y].info)
    {
      LeafIgnoresKey(s, t, s.cells[y].info, s.cells[y].info.key, s.cells[y].info.keyFlags);
    }
    forall y, j | y in d && 0 <= j < |s.cells[y].kids|
      ensures s.cells[y].kids[j] in d && KeyOf(s, y, s.cells[y].kids[j]) == KeyOf(t, y, s.cells[y].kids[j])
    {
      var kid := s.cells[y].kids[j];
      assert s.cells[kid].parent == y;
      if IsAncestor(s.cells, kid, p) {
        AncestorUp(s.cells, kid, p);
      }
    }
  }

  /** The parent's children become the old ones without the `k`-th. */
  lemma DetachRemoves(s: State, p: nat, k: nat)
    requires CanDetach(s, p, k)
    ensures var t := DetachFrom(s, p, k);
            && IsForest(t.cells)
            && Members(t, p, 0) == Members(s, p, 0)[..k] + Members(s, p, 0)[k + 1..]
  {
    hide StringOk, Disjoint, InfosOk, KeysOk, IsAncestor, Detach, Leaf, View, Without, Shape, Acyclic, Denote, Members;
    var t := DetachFrom(s, p, k);
    DetachForest(s.cells, p, k);
    DetachCells(s.cells, p, k);
    WithoutLength(s.cells[p].kids, k);
    var before := Members(s, p, 0);
    var now := Members(t, p, 0);
    forall j | 0 <= j < |now|
      ensures now[j] == before[if j < k then j else j + 1]
    {
      var i := if j < k then j else j + 1;
      WithoutAt(s.cells[p].kids, k, j);
      MembersAt(t, p, 0, j);
      MembersAt(s, p, 0, i);
      var kid := s.cells[p].kids[i];
      KidValid(s, p, i);
      KidNotAbove(s.cells, p, kid);
      KidNotParent(s.cells, p, kid);
      DetachFrame(s, p, k, kid);
      DetachKeepsKey(s, p, k, i);
    }
    assert now == before[..k] + before[k + 1..];
  }

  lemma DetachKeepsKey(s: State, p: nat, k: nat, i: nat)
    requires CanDetach(s, p, k) && i < |s.cells[p].kids| && i != k
    ensures KeyOf(DetachFrom(s, p, k), p, s.cells[p].kids[i]) == KeyOf(s, p, s.cells[p].kids[i])
  {
    hide StringOk, Disjoint, InfosOk, KeysOk, Detach, View, Without, Acyclic;
    DetachCells(s.cells, p, k);
    SameHeap(s, DetachFrom(s, p, k));
    KidValid(s, p, i);
    KidNotParent(s.cells, p, s.cells[p].kids[i]);
  }
}

/** Trees that the parser and the cloner make stand in preorder, in one block of consecutive nodes. */
module Layout {
  import opened Base
  import opened Json
  import opened Forest
  import opened Dom
  import opened Ops
  import opened Build
  import opened Clone
  import opened Copying
  import Text

  /** The tree for `j` at `x`: each child follows behind everything that belongs to the children before it. */
  ghost predicate LaidOut(cells: Cells, x: nat, j: Json)
    decreases j, 0
  {
    x < |cells| &&
    if j.JContainer? then KidsLaidOut(cells, cells[x].kids, x + 1, j.members) else cells[x].kids == []
  }

  ghost predicate KidsLaidOut(cells: Cells, kids: seq<nat>, from: nat, ms: seq<Member>)
    decreases ms, 1
  {
    |kids| == |ms| &&
    forall k :: 0 <= k < |ms| ==> kids[k] == from + NodesOf(ms[..k]) && LaidOut(cells, kids[k], ms[k].value)
  }

  ghost predicate SameKids(cells: Cells, now: Cells, from: nat, n: nat) {
    from + n <= |cells| && from + n <= |now| && forall i :: from <= i < from + n ==> now[i].kids == cells[i].kids
  }

  lemma NodesSplit(ms: seq<Member>, k: nat)
    requires k < |ms|
    ensures NodesOf(ms[..k]) + Nodes(ms[k].value) <= NodesOf(ms)
    ensures NodesOf(ms[..k + 1]) == NodesOf(ms[..k]) + Nodes(ms[k].value)
  {
    hide Nodes, NodesOf;
    NodesSnoc(ms[..k], ms[k]);
    assert ms[..k + 1] == ms[..k] + [ms[k]];
    NodesConcat(ms[..k + 1], ms[k + 1..]);
    assert ms == ms[..k + 1] + ms[k + 1..];
  }

  /** A layout depends on its own block only. */
  lemma {:induction false} LaidOutFrame(cells: Cells, now: Cells, x: nat, j: Json)
    requires LaidOut(cells, x, j) && SameKids(cells, now, x, Nodes(j))
    ensures LaidOut(now, x, j)
    decreases j, 0
  {
    if j.JContainer? {
      KidsFrame(cells, now, cells[x].kids, x + 1, j.members);
    }
  }

  lemma {:induction false} KidsFrame(cells: Cells, now: Cells, kids: seq<nat>, from: nat, ms: seq<Member>)
    requires KidsLaidOut(cells, kids, from, ms) && SameKids(cells, now, from, NodesOf(ms))
    ensures KidsLaidOut(now, kids, from, ms)
    decreases ms, 1
  {
    hide LaidOut;
    forall k | 0 <= k < |ms|
      ensures LaidOut(now, kids[k], ms[k].value)
    {
      NodesSplit(ms, k);
      LaidOutFrame(cells, now, kids[k], ms[k].value);
    }
  }

  lemma KidsSnoc(cells: Cells, kids: seq<nat>, from: nat, ms: seq<Member>, c: nat, m: Member)
    requires KidsLaidOut(cells, kids, from, ms) && c == from + NodesOf(ms) && LaidOut(cells, c, m.value)
    ensures KidsLaidOut(cells, kids + [c], from, ms + [m])
  {
    hide LaidOut, Nodes, NodesOf;
    var all, ids := ms + [m], kids + [c];
    forall k | 0 <= k < |all|
      ensures ids[k] == from + NodesOf(all[..k]) && LaidOut(cells, ids[k], all[k].value)
    {
      assert all[..k] == if k < |ms| then ms[..k] else ms;
    }
  }

  lemma KidsCons(cells: Cells, kids: seq<nat>, from: nat, m: Member, rest: seq<Member>)
    requires LaidOut(cells, from, m.value) && KidsLaidOut(cells, kids, from + Nodes(m.value), rest)
    ensures KidsLaidOut(cells, [from] + kids, from, [m] + rest)
  {
    hide LaidOut, Nodes;
    var all, ids := [m] + rest, [from] + kids;
    forall k | 0 <= k < |all|
      ensures ids[k] == from + NodesOf(all[..k]) && LaidOut(cells, ids[k], all[k].value)
    {
      if k > 0 {
        assert all[..k][0] == m && all[..k][1..] == rest[..k - 1];
      }
    }
  }

  // ---------- the parser's layout ----------

  /** Whatever is planted stands in preorder behind everything that was there. */
  lemma {:induction false} PlantLaidOut(s: State, j: Json)
    ensures var t := Plant(s, j);
            && |t.cells| == |s.cells| + Nodes(j) && s.cells <= t.cells
            && LaidOut(t.cells, |s.cells|, j)
    decreases j, 0
  {
    if j.JContainer? {
      hide Plant, PlantMembers, LaidOut, KidsLaidOut;
      PlantContainerLaidOut(s, j.isObject, j.members);
    } else {
      hide Text.Flags, PlantMembers;
    }
  }

  lemma {:induction false} PlantContainerLaidOut(s: State, o: bool, ms: seq<Member>)
    ensures var t := Plant(s, JContainer(o, ms));
            && |t.cells| == |s.cells| + 1 + NodesOf(ms) && s.cells <= t.cells
            && LaidOut(t.cells, |s.cells|, JContainer(o, ms))
    decreases ms, 2
  {
    hide PlantMembers, KidsLaidOut;
    PlantMembersLaidOut(AddNode(s, ContainerInfo(o)), |s.cells|, o, ms);
  }

  lemma {:induction false} PlantMembersLaidOut(s: State, p: nat, o: bool, ms: seq<Member>)
    requires p < |s.cells| && s.cells[p].kids == []
    ensures var t := PlantMembers(s, p, o, ms);
            && |t.cells| == |s.cells| + NodesOf(ms)
            && (forall i :: 0 <= i < |s.cells| && i != p ==> t.cells[i] == s.cells[i])
            && KidsLaidOut(t.cells, t.cells[p].kids, |s.cells|, ms)
    decreases ms, 1
  {
    if ms != [] {
      hide Plant, LaidOut, KidsLaidOut, Attach, NodesOf, Nodes, PlantKey, KeyRef, KeyFlags;
      var rest, m := ms[..|ms| - 1], ms[|ms| - 1];
      assert ms == rest + [m];
      NodesSnoc(rest, m);
      PlantMembersLaidOut(s, p, o, rest);
      var t := PlantMembers(s, p, o, rest);
      var c := |t.cells|;
      PlantLaidOut(PlantKey(t, o, m.key), m.value);
      KeyCells(t, o, m.key);
      var u := Plant(PlantKey(t, o, m.key), m.value);
      var w := PlantMember(t, p, o, m);
      LinkKids(u.cells, p, c, KeyRef(t, o, m.key), KeyFlags(o, m.key));
      LaidOutFrame(u.cells, w.cells, c, m.value);
      KidsFrame(t.cells, w.cells, t.cells[p].kids, |s.cells|, rest);
      KidsSnoc(w.cells, t.cells[p].kids, |s.cells|, rest, c, m);
    }
  }

  lemma KeyCells(s: State, o: bool, key: bytes)
    ensures PlantKey(s, o, key).cells == s.cells
  {
  }

  lemma LinkKids(cells: Cells, p: nat, c: nat, key: StringRef, keyFlags: nat)
    requires p < |cells| && c < |cells| && p != c
    ensures var r := Attach(cells, p, c, key, keyFlags);
            && |r| == |cells| && r[p].kids == cells[p].kids + [c] && r[c].kids == cells[c].kids
            && forall i :: 0 <= i < |cells| && i != p && i != c ==> r[i] == cells[i]
  {
  }

  // ---------- the cloner's layout ----------

  lemma CloneKidKids(d: State, s: State, x: nat, c: nat, y: nat)
    requires x < |s.cells| && c < |s.cells| && y < |d.cells|
    ensures var t := CloneKid(d, s, x, c, y);
            && |t.cells| == |d.cells| + 1 && t.cells[|d.cells|].kids == []
            && t.cells[y].kids == d.cells[y].kids + [|d.cells|]
            && forall i :: 0 <= i < |d.cells| && i != y ==> t.cells[i].kids == d.cells[i].kids
  {
    hide CopiedInfo, KeyRef, KeyOf, PayloadText;
  }

  /** The copies below `y` stand in preorder; `ids` are the children `y` gets. */
  lemma {:induction false} CloneKidsLaidOut(d: State, s: State, x: nat, y: nat, k: nat) returns (ids: seq<nat>)
    requires Inv(s) && x < |s.cells| && k <= |s.cells[x].kids| && y < |d.cells|
    ensures var t := CloneKids(d, s, x, y, k);
            && |t.cells| == |d.cells| + NodesOf(Members(s, x, k))
            && t.cells[y].kids == d.cells[y].kids + ids
            && (forall i :: 0 <= i < |d.cells| && i != y ==> t.cells[i].kids == d.cells[i].kids)
            && KidsLaidOut(t.cells, ids, |d.cells|, Members(s, x, k))
    decreases RankOf(s.cells)[x], |s.cells[x].kids| - k
  {
    hide Shape, Acyclic, IsRank, CloneKid, KeyOf, InfosOk, KeysOk, Disjoint, CountersOk, Shallow, LaidOut,
         KidsLaidOut, CloneKids, Members, Denote, NodesOf, Nodes;
    if k == |s.cells[x].kids| {
      ids := [];
      NoMembersLeft(s, x, k);
      CloneKidsEnd(d, s, x, y, k);
      NoKids(d.cells, |d.cells|);
    } else {
      var c, id := s.cells[x].kids[k], |d.cells|;
      KidValid(s, x, k);
      MembersStep(s, x, k);
      var t := CloneKid(d, s, x, c, y);
      CloneKidKids(d, s, x, c, y);
      CloneKidsStep(d, s, x, y, k);
      var below := CloneKidsLaidOut(t, s, c, id, 0);
      var u := CloneKids(t, s, c, id, 0);
      TreeLaidOut(u.cells, id, s, c, below);
      var rest := CloneKidsLaidOut(u, s, x, y, k + 1);
      var w := CloneKids(u, s, x, y, k + 1);
      ids := [id] + rest;
      LaidOutFrame(u.cells, w.cells, id, Denote(s, c));
      KidsCons(w.cells, rest, id, Member(KeyOf(s, x, c), Denote(s, c)), Members(s, x, k + 1));
      Associate(d.cells[y].kids, [id], rest);
    }
  }

  lemma CloneKidsEnd(d: State, s: State, x: nat, y: nat, k: nat)
    requires IsForest(s.cells) && x < |s.cells| && k == |s.cells[x].kids| && y < |d.cells|
    ensures CloneKids(d, s, x, y, k) == d && d.cells[y].kids + [] == d.cells[y].kids
  {
  }

  lemma NoKids(cells: Cells, from: nat)
    ensures KidsLaidOut(cells, [], from, [])
  {
  }

  /** A copy with its children below it. */
  lemma TreeLaidOut(cells: Cells, id: nat, s: State, c: nat, ids: seq<nat>)
    requires Inv(s) && c < |s.cells| && id < |cells| && cells[id].kids == ids
    requires KidsLaidOut(cells, ids, id + 1, Members(s, c, 0))
    ensures LaidOut(cells, id, Denote(s, c))
    ensures Nodes(Denote(s, c)) == 1 + NodesOf(Members(s, c, 0))
  {
    hide Shape, Acyclic, IsRank, InfosOk, KeysOk, Disjoint, CountersOk, Members;
    DenoteFromShallow(s, c);
    if !IsContainer(s.cells[c].info.kind) {
      assert ids == [];
    }
  }

  /** A deep copy stands in preorder, in the block of nodes behind everything that was there. */
  lemma CloneLaidOut(d: State, s: State, x: nat)
    requires Inv(s) && x < |s.cells|
    ensures var t := CloneTree(d, s, x);
            && |t.cells| == |d.cells| + Nodes(Denote(s, x)) && LaidOut(t.cells, |d.cells|, Denote(s, x))
  {
    hide Shape, Acyclic, IsRank, InfosOk, KeysOk, Disjoint, CountersOk, CloneKids, Members, LaidOut, KidsLaidOut,
         CopiedInfo, View;
    var t, id := CloneNode(d, s, s.cells[x].info), |d.cells|;
    var ids := CloneKidsLaidOut(t, s, x, id, 0);
    assert t.cells[id].kids == [] && [] + ids == ids;
    TreeLaidOut(CloneTree(d, s, x).cells, id, s, x, ids);
  }
}

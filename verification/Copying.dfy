/** What is left of a deep copy at every point of the cloner's walk. */
module Copying {
  import opened Base
  import opened Json
  import opened Forest
  import opened Links
  import opened Dom
  import opened Build
  import opened Clone
  import opened Spec

  // ---------- sizes, whether or not the copy fits ----------

  lemma CloneKidSize(d: State, s: State, x: nat, c: nat, y: nat)
    requires Inv(s) && x < |s.cells| && c < |s.cells| && s.cells[c].parent == x && y < |d.cells|
    ensures var t := CloneKid(d, s, x, c, y);
            && t.capacity == d.capacity && |t.cells| == |d.cells| + 1
            && |t.heap| == |d.heap| + |KeyOf(s, x, c)| + |PayloadText(s, s.cells[c].info)|
            && (forall z :: 0 <= z < |d.cells| ==> t.cells[z].parent == d.cells[z].parent)
            && t.cells[|d.cells|].parent == y
  {
    hide Inv, View, CopiedInfo, KeyRef;
    SourceKey(s, x, c);
  }

  lemma {:induction false} CloneKidsSize(d: State, s: State, x: nat, y: nat, k: nat)
    requires Inv(s) && x < |s.cells| && k <= |s.cells[x].kids| && y < |d.cells|
    ensures var t := CloneKids(d, s, x, y, k);
            && t.capacity == d.capacity && |t.cells| == |d.cells| + NodesOf(Members(s, x, k))
            && |t.heap| == |d.heap| + StringsOf(Members(s, x, k))
            && (forall z :: 0 <= z < |d.cells| ==> t.cells[z].parent == d.cells[z].parent)
    decreases RankOf(s.cells)[x], |s.cells[x].kids| - k
  {
    hide Shape, Acyclic, IsRank, CloneKid, Members, KeyOf, Denote, InfosOk, KeysOk, Disjoint, Shallow, PayloadText;
    if k == |s.cells[x].kids| {
      NoMembersLeft(s, x, k);
    } else {
      var c := s.cells[x].kids[k];
      KidValid(s, x, k);
      CloneKidSize(d, s, x, c, y);
      var t := CloneKid(d, s, x, c, y);
      CloneKidsSize(t, s, c, |d.cells|, 0);
      var u := CloneKids(t, s, c, |d.cells|, 0);
      CloneKidsSize(u, s, x, y, k + 1);
      MembersStep(s, x, k);
      DenoteFromShallow(s, c);
      ShallowSize(s, c);
    }
  }

  lemma NoMembersLeft(s: State, x: nat, k: nat)
    requires IsForest(s.cells) && x < |s.cells| && k == |s.cells[x].kids|
    ensures Members(s, x, k) == [] && NodesOf(Members(s, x, k)) == 0 && StringsOf(Members(s, x, k)) == 0
  {
  }

  lemma CloneTreeSize(d: State, s: State, x: nat)
    requires Inv(s) && x < |s.cells|
    ensures CloneTree(d, s, x).capacity == d.capacity
    ensures UsedBytes(CloneTree(d, s, x)) == UsedBytes(d) + Footprint(Denote(s, x))
  {
    hide Shape, Acyclic, IsRank, Members, KeyOf, Denote, InfosOk, KeysOk, Disjoint, Shallow, CloneKids, CopiedInfo,
         View;
    CloneKidsSize(CloneNode(d, s, s.cells[x].info), s, x, |d.cells|, 0);
    DenoteFromShallow(s, x);
    ShallowSize(s, x);
  }

  // ---------- what is still to be copied ----------

  /** The state after everything behind `x` has been copied behind its copy `y`, `d` levels below the root. */
  ghost function RestClone(t: State, s: State, x: nat, y: nat, d: nat): State
    requires IsForest(s.cells) && x < |s.cells|
    decreases d
  {
    if d == 0 || s.cells[x].parent >= |s.cells| || y >= |t.cells| || t.cells[y].parent >= |t.cells| then t
    else
      var p, q := s.cells[x].parent, t.cells[y].parent;
      RestClone(CloneKids(t, s, p, q, IndexOf(s.cells[p].kids, x) + 1), s, p, q, d - 1)
  }

  lemma RestCloneStep(t: State, s: State, p: nat, k: nat, y: nat, d: nat)
    requires IsForest(s.cells) && p < |s.cells| && k < |s.cells[p].kids| && d > 0
    requires y < |t.cells| && t.cells[y].parent < |t.cells|
    ensures var x := s.cells[p].kids[k];
            && x < |s.cells| && s.cells[x].parent == p
            && RestClone(t, s, x, y, d) ==
                RestClone(CloneKids(t, s, p, t.cells[y].parent, k + 1), s, p, t.cells[y].parent, d - 1)
  {
    hide KidsOk, KidsDistinct, Acyclic, CloneKids;
    IndexIsPosition(s.cells, p, k);
    KidValid(s, p, k);
  }

  lemma CloneKidsStep(t: State, s: State, x: nat, y: nat, k: nat)
    requires IsForest(s.cells) && x < |s.cells| && k < |s.cells[x].kids| && y < |t.cells|
    ensures var c := s.cells[x].kids[k];
            && c < |s.cells|
            && CloneKids(t, s, x, y, k) ==
                CloneKids(CloneKids(CloneKid(t, s, x, c, y), s, c, |t.cells|, 0), s, x, y, k + 1)
  {
    hide CloneKid;
    KidValid(s, x, k);
  }

  /** Copying one child and going on from it: the same end. */
  lemma CloneFromKid(t: State, s: State, p: nat, k: nat, q: nat, d: nat)
    requires Inv(s) && p < |s.cells| && k < |s.cells[p].kids| && q < |t.cells|
    ensures var c := s.cells[p].kids[k];
            && c < |s.cells| && s.cells[c].parent == p
            && var u := CloneKid(t, s, p, c, q);
            && RestClone(CloneKids(t, s, p, q, k), s, p, q, d) ==
                RestClone(CloneKids(u, s, c, |t.cells|, 0), s, c, |t.cells|, d + 1)
  {
    hide Shape, Acyclic, InfosOk, KeysOk, Disjoint, CloneKid, CloneKids, RestClone, Members, CountersOk;
    KidValid(s, p, k);
    var c := s.cells[p].kids[k];
    var u := CloneKid(t, s, p, c, q);
    CloneKidSize(t, s, p, c, q);
    CloneKidsSize(u, s, c, |t.cells|, 0);
    CloneKidsStep(t, s, p, q, k);
    RestCloneStep(CloneKids(u, s, c, |t.cells|, 0), s, p, k, |t.cells|, d + 1);
  }

  lemma {:induction false} RestCloneSize(t: State, s: State, x: nat, y: nat, d: nat)
    requires Inv(s) && x < |s.cells|
    ensures RestClone(t, s, x, y, d).capacity == t.capacity
    ensures UsedBytes(RestClone(t, s, x, y, d)) >= UsedBytes(t)
    decreases d
  {
    hide Acyclic, InfosOk, KeysOk, Disjoint, CloneKids, Members, CountersOk;
    if !(d == 0 || s.cells[x].parent >= |s.cells| || y >= |t.cells| || t.cells[y].parent >= |t.cells|) {
      var p, q := s.cells[x].parent, t.cells[y].parent;
      var k := IndexOf(s.cells[p].kids, x) + 1;
      CloneKidsSize(t, s, p, q, k);
      RestCloneSize(CloneKids(t, s, p, q, k), s, p, q, d - 1);
    }
  }

  // ---------- where copies stand ----------

  /** `y` and its ancestors, `d` levels up, are last children, and of the same kinds as `x` and its ancestors. */
  ghost predicate Spine(cells: Cells, y: nat, from: Cells, x: nat, d: nat)
    decreases d
  {
    y < |cells| && x < |from| && cells[y].info.kind == from[x].info.kind &&
    (d == 0 || (cells[y].parent < |cells| && cells[cells[y].parent].kids != [] && Last(cells[cells[y].parent].kids) == y
                && Spine(cells, cells[y].parent, from, from[x].parent, d - 1)))
  }

  lemma {:induction false} SpineKept(before: Cells, now: Cells, rank: seq<nat>, y: nat, z: nat, from: Cells,
                                     x: nat, d: nat)
    requires IsRank(before, rank) && |before| <= |now| && y < |before| && z < |before| && rank[z] >= rank[y]
    requires forall w :: 0 <= w < |before| ==>
      now[w].parent == before[w].parent && now[w].info == before[w].info && (w != y ==> now[w].kids == before[w].kids)
    requires Spine(before, z, from, x, d)
    ensures Spine(now, z, from, x, d)
    decreases d
  {
    if d > 0 {
      SpineKept(before, now, rank, y, before[z].parent, from, from[x].parent, d - 1);
    }
  }

  /** A new last child continues the spine. */
  lemma SpineGrows(before: State, now: State, y: nat, id: nat, from: Cells, x: nat, c: nat, d: nat)
    requires IsForest(before.cells) && Grows(before, now, y) && Spine(before.cells, y, from, x, d)
    requires id < |now.cells| && now.cells[id].parent == y && now.cells[y].kids == before.cells[y].kids + [id]
    requires c < |from| && from[c].parent == x && now.cells[id].info.kind == from[c].info.kind
    ensures Spine(now.cells, id, from, c, d + 1)
  {
    hide Shape, IsSuffix;
    SpineKept(before.cells, now.cells, RankOf(before.cells), y, y, from, x, d);
  }

  /** The copy `y` of `x` is there, nothing below it is; `done` is the state the copy ends in. */
  ghost predicate CopyFacing(t: State, s: State, root: nat, x: nat, y: nat, d: nat, done: State) {
    && Inv(s) && Inv(t) && root < |s.cells| && Spine(t.cells, y, s.cells, x, d) && Climb(s.cells, x, d) == root
    && t.cells[y].kids == []
    && RestClone(CloneKids(t, s, x, y, 0), s, x, y, d) == done
  }

  /** The copy of everything below `x` is there. */
  ghost predicate CopyBehind(t: State, s: State, root: nat, x: nat, y: nat, d: nat, done: State) {
    && Inv(s) && Inv(t) && root < |s.cells| && Spine(t.cells, y, s.cells, x, d) && Climb(s.cells, x, d) == root
    && RestClone(t, s, x, y, d) == done
  }

  /** What the copy of a node and its key takes. */
  function Need(s: State, p: nat, c: nat): nat
    requires p < |s.cells| && c < |s.cells|
  {
    NODE_BYTES + |PayloadText(s, s.cells[c].info)| + |KeyOf(s, p, c)|
  }

  lemma SpineFacts(cells: Cells, y: nat, from: Cells, x: nat, d: nat)
    requires Spine(cells, y, from, x, d)
    ensures y < |cells| && x < |from| && cells[y].info.kind == from[x].info.kind
    ensures d > 0 ==>
      && cells[y].parent < |cells| && cells[cells[y].parent].kids != [] && Last(cells[cells[y].parent].kids) == y
      && Spine(cells, cells[y].parent, from, from[x].parent, d - 1)
  {
  }

  lemma CopyFacingFacts(t: State, s: State, root: nat, x: nat, y: nat, d: nat, done: State)
    requires CopyFacing(t, s, root, x, y, d, done)
    ensures x < |s.cells| && y < |t.cells| && root < |s.cells| && IsForest(s.cells) && Spine(t.cells, y, s.cells, x, d)
    ensures Climb(s.cells, x, d) == root && RestClone(CloneKids(t, s, x, y, 0), s, x, y, d) == done
    ensures t.cells[y].kids == []
  {
    hide Inv, RestClone, CloneKids;
    InvForest(s);
    SpineFacts(t.cells, y, s.cells, x, d);
  }

  lemma CopyStart(t: State, s: State, root: nat, done: State)
    requires Inv(s) && Inv(t) && root < |s.cells| && |t.cells| > 0 && t.cells[|t.cells| - 1].kids == []
    requires t.cells[|t.cells| - 1].info.kind == s.cells[root].info.kind
    requires done == CloneKids(t, s, root, |t.cells| - 1, 0)
    ensures CopyFacing(t, s, root, root, |t.cells| - 1, 0, done)
  {
    hide Inv, CloneKids;
  }

  /** The copy of a child that fits: the walk stands at it. The copy of one that does not: nor does the whole. */
  lemma CopyChild(t: State, s: State, root: nat, p: nat, k: nat, q: nat, d: nat, done: State)
    requires Inv(s) && Inv(t) && root < |s.cells| && p < |s.cells| && k < |s.cells[p].kids|
    requires Climb(s.cells, p, d) == root
    requires q < |t.cells| && Spine(t.cells, q, s.cells, p, d)
    requires RestClone(CloneKids(t, s, p, q, k), s, p, q, d) == done
    ensures var c := s.cells[p].kids[k];
            && c < |s.cells| && s.cells[c].parent == p
            && (Need(s, p, c) <= Remaining(t) ==>
                  var u := CloneKid(t, s, p, c, q);
                  CopyFacing(u, s, root, c, |t.cells|, d + 1, done) && Inv(u) && Grows(t, u, q)
                      && |t.cells| < |u.cells|)
            && (Need(s, p, c) > Remaining(t) ==> UsedBytes(done) > t.capacity == done.capacity)
  {
    hide Shape, Acyclic, InfosOk, KeysOk, Disjoint, CloneKid, CloneKids, RestClone, Members, CountersOk, Shallow,
         FreshRefs, KeyOf, PayloadText, Spine;
    KidValid(s, p, k);
    var c := s.cells[p].kids[k];
    var u := CloneKid(t, s, p, c, q);
    CloneKidSize(t, s, p, c, q);
    CloneFromKid(t, s, p, k, q, d);
    if Need(s, p, c) <= Remaining(t) {
      ShallowSize(s, c);
      HasKids(s, p, k);
      SpineFacts(t.cells, q, s.cells, p, d);
      CloneKidRight(t, s, p, c, q);
      SpineGrows(t, u, q, |t.cells|, s.cells, p, c, d);
      ClimbFirst(s.cells, c, d + 1);
    } else {
      CloneKidsSize(u, s, c, |t.cells|, 0);
      RestCloneSize(CloneKids(u, s, c, |t.cells|, 0), s, c, |t.cells|, d + 1);
    }
  }

  /** Nothing below `x`: the walk is behind it. */
  lemma CopyLeaf(t: State, s: State, root: nat, x: nat, y: nat, d: nat, done: State)
    requires CopyFacing(t, s, root, x, y, d, done) && x < |s.cells| && s.cells[x].kids == []
    ensures CopyBehind(t, s, root, x, y, d, done)
  {
    hide Inv, Spine, RestClone;
  }

  /** Behind a child, the parent's children from the next one on are to be copied. */
  lemma CopyOn(t: State, s: State, root: nat, p: nat, k: nat, x: nat, y: nat, d: nat, done: State)
    requires CopyBehind(t, s, root, x, y, d, done) && d > 0 && p < |s.cells| && k < |s.cells[p].kids|
    requires s.cells[p].kids[k] == x
    ensures y < |t.cells| && x < |s.cells| && s.cells[x].parent == p
    ensures var q := t.cells[y].parent;
            && q < |t.cells| && t.cells[q].kids != [] && Last(t.cells[q].kids) == y
            && Spine(t.cells, q, s.cells, p, d - 1)
            && Climb(s.cells, p, d - 1) == root && RestClone(CloneKids(t, s, p, q, k + 1), s, p, q, d - 1) == done
            && (k + 1 == |s.cells[p].kids| ==> CopyBehind(t, s, root, p, q, d - 1, done))
  {
    hide Inv, Shape, Acyclic, RestClone;
    InvForest(s);
    KidValid(s, p, k);
    SpineFacts(t.cells, y, s.cells, x, d);
    RestCloneStep(t, s, p, k, y, d);
    ClimbFirst(s.cells, x, d);
  }

  /** The parent of a new node that is somebody's child is new. */
  lemma ParentNew(before: State, now: State, y: nat)
    requires Inv(before) && Inv(now) && Extends(before, now) && |before.cells| <= y < |now.cells|
    requires now.cells[y].parent < |now.cells|
    ensures now.cells[y].parent >= |before.cells|
  {
    hide Acyclic, InfosOk, KeysOk, Disjoint, IsSuffix;
  }

  lemma CopyEnd(t: State, s: State, root: nat, x: nat, y: nat, d: nat, done: State)
    requires CopyBehind(t, s, root, x, y, d, done)
    ensures x < |s.cells| && y < |t.cells| && root < |s.cells| && IsForest(s.cells)
    ensures x == root ==> d == 0 && t == done
    ensures x != root ==> d > 0 && s.cells[x].parent < |s.cells| && x in s.cells[s.cells[x].parent].kids
  {
    hide Acyclic, InfosOk, KeysOk, Disjoint;
    if x == root {
      ClimbHome(s.cells, x, d);
    } else {
      ClimbFirst(s.cells, x, d);
      if s.cells[x].parent >= |s.cells| {
        ClimbLost(s.cells, s.cells[x].parent, d - 1);
      }
    }
  }
}

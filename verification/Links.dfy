/** The links the slab really stores, as a picture of the children sequences. */
module Links {
  import opened Forest

  /** Slab::Node: contents and four 16-bit links. */
  datatype Node = Node(info: Info, parent: nat, firstChild: nat, lastChild: nat, nextSibling: nat)

  function First(kids: seq<nat>): nat {
    if kids == [] then INVALID_ID else kids[0]
  }

  function Last(kids: seq<nat>): nat {
    if kids == [] then INVALID_ID else kids[|kids| - 1]
  }

  /** The sibling behind `c` in `kids`. */
  function After(kids: seq<nat>, c: nat): nat {
    if c in kids && IndexOf(kids, c) + 1 < |kids| then kids[IndexOf(kids, c) + 1] else INVALID_ID
  }

  function Next(cells: Cells, c: nat): nat {
    if c < |cells| && cells[c].parent < |cells| then After(cells[cells[c].parent].kids, c) else INVALID_ID
  }

  function NodeOf(cells: Cells, i: nat): Node
    requires i < |cells|
  {
    Node(cells[i].info, cells[i].parent, First(cells[i].kids), Last(cells[i].kids), Next(cells, i))
  }

  /** The node array that represents a forest: every child chain runs from first to last child. */
  function Picture(cells: Cells): (nodes: seq<Node>)
    ensures |nodes| == |cells|
  {
    seq(|cells|, i requires 0 <= i < |cells| => NodeOf(cells, i))
  }

  // ---------- reading the picture ----------

  lemma PictureAt(cells: Cells, i: nat)
    requires i < |cells|
    ensures Picture(cells)[i] == NodeOf(cells, i)
  {
  }

  /** Following next_sibling visits the children in order. */
  lemma NextOfKid(cells: Cells, p: nat, k: nat)
    requires Shape(cells) && p < |cells| && k < |cells[p].kids|
    ensures var c := cells[p].kids[k];
            && c < |cells| && cells[c].parent == p
            && Next(cells, c) == if k + 1 < |cells[p].kids| then cells[p].kids[k + 1] else INVALID_ID
  {
    IndexIsPosition(cells, p, k);
  }

  /** The `k`-th child, or the invalid id behind the last. */
  function KidAt(kids: seq<nat>, k: nat): nat {
    if k < |kids| then kids[k] else INVALID_ID
  }

  // ---------- changing the picture ----------

  lemma {:induction false} IndexAppend(kids: seq<nat>, c: nat, z: nat)
    requires z in kids
    ensures z in kids + [c] && IndexOf(kids + [c], z) == IndexOf(kids, z)
  {
    assert (kids + [c])[0] == kids[0];
    if kids[0] != z {
      assert (kids + [c])[1..] == kids[1..] + [c];
      IndexAppend(kids[1..], c, z);
    }
  }

  lemma IndexUnique(kids: seq<nat>, c: nat, k: nat)
    requires k < |kids| && kids[k] == c && (forall j :: 0 <= j < |kids| && j != k ==> kids[j] != c)
    ensures c in kids && IndexOf(kids, c) == k
  {
  }

  lemma AddPicture(cells: Cells, info: Info)
    requires Shape(cells) && |cells| + 1 < INVALID_ID
    ensures Picture(AddCell(cells, info)) ==
        Picture(cells) + [Node(info, INVALID_ID, INVALID_ID, INVALID_ID, INVALID_ID)]
  {
    hide IndexOf, KidsOk, KidsDistinct;
    var r := AddCell(cells, info);
    forall i | 0 <= i < |cells|
      ensures NodeOf(r, i) == NodeOf(cells, i)
    {
      assert r[i] == cells[i];
      if cells[i].parent != INVALID_ID {
        assert r[cells[i].parent] == cells[cells[i].parent];
      }
    }
  }

  /** Node contents and links are independent. */
  lemma InfoPicture(cells: Cells, i: nat, info: Info)
    requires i < |cells|
    ensures Picture(cells[i := cells[i].(info := info)]) == Picture(cells)[i := Picture(cells)[i].(info := info)]
  {
  }

  /** What append_child_unchecked has to write. */
  lemma AttachPicture(cells: Cells, p: nat, c: nat, key: StringRef, keyFlags: nat)
    requires IsForest(cells) && p < |cells| && c < |cells| && p != c && cells[c].parent == INVALID_ID
    ensures var r := Attach(cells, p, c, key, keyFlags);
            var kids := cells[p].kids;
            && NodeOf(r, c) ==
                NodeOf(cells, c).(info := cells[c].info.(key := key, keyFlags := keyFlags), parent := p,
                nextSibling := INVALID_ID)
            && NodeOf(r, p) == NodeOf(cells, p).(firstChild := if kids == [] then c else First(kids), lastChild := c)
            && (kids != [] ==> Last(kids) < |cells| && Last(kids) != p && Last(kids) != c
                               && NodeOf(r, Last(kids)) == NodeOf(cells, Last(kids)).(nextSibling := c))
            && forall i :: 0 <= i < |cells| && i != p && i != c && i != Last(kids) ==> NodeOf(r, i) == NodeOf(cells, i)
  {
    hide IndexOf;
    var r := Attach(cells, p, c, key, keyFlags);
    var kids := cells[p].kids;
    assert r[p].kids == kids + [c] && r[p].parent == cells[p].parent && r[p].info == cells[p].info;
    assert r[c].parent == p && r[c].kids == cells[c].kids;
    assert c !in kids;
    IndexUnique(kids + [c], c, |kids|);
    assert Next(r, c) == INVALID_ID;
    forall i | 0 <= i < |cells| && i != c
      ensures i != Last(kids) ==> Next(r, i) == Next(cells, i)
      ensures i == Last(kids) ==> Next(r, i) == c
    {
      AttachNext(cells, p, c, key, keyFlags, i);
    }
    if kids != [] {
      LastKid(cells, p);
    }
  }

  lemma LastKid(cells: Cells, p: nat)
    requires IsForest(cells) && p < |cells| && cells[p].kids != []
    ensures Last(cells[p].kids) < |cells| && cells[Last(cells[p].kids)].parent == p
    ensures Last(cells[p].kids) != p
  {
    KidNotParent(cells, p, Last(cells[p].kids));
  }

  lemma AttachNext(cells: Cells, p: nat, c: nat, key: StringRef, keyFlags: nat, i: nat)
    requires Shape(cells) && p < |cells| && c < |cells| && p != c && cells[c].parent == INVALID_ID && i < |cells|
    requires i != c
    ensures var r, kids := Attach(cells, p, c, key, keyFlags), cells[p].kids;
            Next(r, i) == if kids != [] && i == Last(kids) then c else Next(cells, i)
  {
    hide IndexOf, KidsOk, KidsDistinct;
    var r, kids := Attach(cells, p, c, key, keyFlags), cells[p].kids;
    assert r[i].parent == cells[i].parent;
    if cells[i].parent == p {
      assert r[p].kids == kids + [c];
      AfterAppend(kids, c, i);
      LastIndex(cells, p);
    } else {
      if kids != [] {
        LastParent(cells, p);
      }
      if cells[i].parent < |cells| {
        assert r[cells[i].parent].kids == cells[cells[i].parent].kids;
      }
    }
  }

  lemma LastParent(cells: Cells, p: nat)
    requires Shape(cells) && p < |cells| && cells[p].kids != []
    ensures Last(cells[p].kids) < |cells| && cells[Last(cells[p].kids)].parent == p
  {
  }

  /** Among distinct children, only the last has the last position. */
  lemma LastIndex(cells: Cells, p: nat)
    requires Shape(cells) && p < |cells|
    ensures forall z :: z in cells[p].kids ==>
        (IndexOf(cells[p].kids, z) + 1 == |cells[p].kids| <==> z == Last(cells[p].kids))
  {
  }

  lemma AfterAppend(kids: seq<nat>, c: nat, z: nat)
    requires z in kids
    ensures After(kids + [c], z) == if IndexOf(kids, z) + 1 == |kids| then c else After(kids, z)
  {
    hide IndexOf;
    IndexAppend(kids, c, z);
  }

  // ---------- unlinking ----------

  lemma {:induction false} IndexWithout(kids: seq<nat>, k: nat, z: nat)
    requires k < |kids| && z in kids && (forall i, j :: 0 <= i < j < |kids| ==> kids[i] != kids[j]) && z != kids[k]
    ensures z in Without(kids, k)
    ensures IndexOf(Without(kids, k), z) == if IndexOf(kids, z) < k then IndexOf(kids, z) else IndexOf(kids, z) - 1
  {
    hide IndexOf;
    var i := IndexOf(kids, z);
    var w, j := Without(kids, k), if i < k then i else i - 1;
    assert w[j] == z;
    forall m | 0 <= m < |w| && m != j
      ensures w[m] != z
    {
      assert w[m] == kids[if m < k then m else m + 1];
    }
    IndexUnique(w, z, j);
  }

  /** Without the `k`-th child, its predecessor is followed by its successor. */
  lemma AfterWithout(kids: seq<nat>, k: nat, z: nat)
    requires k < |kids| && z in kids && (forall i, j :: 0 <= i < j < |kids| ==> kids[i] != kids[j]) && z != kids[k]
    ensures After(Without(kids, k), z) == if k > 0 && z == kids[k - 1] then After(kids, kids[k]) else After(kids, z)
  {
    hide IndexOf;
    IndexWithout(kids, k, z);
    IndexUnique(kids, kids[k], k);
    var i := IndexOf(kids, z);
    if i + 1 < |kids| {
      var w := Without(kids, k);
      assert i < k && i + 1 < k ==> w[i + 1] == kids[i + 1];
      assert i + 1 == k && k + 1 < |kids| ==> w[i + 1] == kids[k + 1];
      assert i > k ==> w[i] == kids[i + 1];
    }
  }

  /** What unlinking the `k`-th child has to write. */
  lemma DetachPicture(cells: Cells, p: nat, k: nat)
    requires IsForest(cells) && p < |cells| && k < |cells[p].kids| && cells[p].kids[k] < |cells|
    ensures var r, kids, c := Detach(cells, p, k), cells[p].kids, cells[p].kids[k];
            var previous := if k == 0 then INVALID_ID else kids[k - 1];
            && c != p
            && NodeOf(r, c) ==
                NodeOf(cells, c).(info := cells[c].info.(key := NO_STRING, keyFlags := 0), parent := INVALID_ID,
                nextSibling := INVALID_ID)
            && NodeOf(r, p) == NodeOf(cells, p).(firstChild := if k == 0 then Next(cells, c) else First(kids),
                                                 lastChild := if c == Last(kids) then previous else Last(kids))
            && (k > 0 ==> previous < |cells| && previous != p && previous != c
                          && NodeOf(r, previous) == NodeOf(cells, previous).(nextSibling := Next(cells, c)))
            && forall i :: 0 <= i < |cells| && i != p && i != c && i != previous ==> NodeOf(r, i) == NodeOf(cells, i)
  {
    hide IndexOf, Next, KidsOk, KidsDistinct, ParentsOk, Detach, Without;
    var r, kids, c := Detach(cells, p, k), cells[p].kids, cells[p].kids[k];
    DetachCells(cells, p, k);
    DetachEnds(cells, p, k);
    forall i | 0 <= i < |cells| && i != c
      ensures Next(r, i) == if k > 0 && i == kids[k - 1] then Next(cells, c) else Next(cells, i)
    {
      DetachNext(cells, p, k, i);
    }
    DetachedNext(r, c);
    if k > 0 {
      OtherKid(cells, p, k - 1, k);
    }
  }

  lemma OtherKid(cells: Cells, p: nat, j: nat, k: nat)
    requires IsForest(cells) && p < |cells| && j < k < |cells[p].kids|
    ensures cells[p].kids[j] < |cells| && cells[p].kids[j] != p && cells[p].kids[j] != cells[p].kids[k]
  {
    KidNotParent(cells, p, cells[p].kids[j]);
  }

  lemma DetachedNext(cells: Cells, c: nat)
    requires c < |cells| < INVALID_ID && cells[c].parent == INVALID_ID
    ensures Next(cells, c) == INVALID_ID
  {
  }

  lemma DetachEnds(cells: Cells, p: nat, k: nat)
    requires IsForest(cells) && p < |cells| && k < |cells[p].kids|
    ensures var kids, c := cells[p].kids, cells[p].kids[k];
            && First(Without(kids, k)) == (if k == 0 then Next(cells, c) else First(kids))
            && Last(Without(kids, k)) ==
                (if c == Last(kids) then (if k == 0 then INVALID_ID else kids[k - 1]) else Last(kids))
  {
    hide Next, KidsOk, ParentsOk;
    NextOfKid(cells, p, k);
    var kids := cells[p].kids;
    assert kids[k] == Last(kids) <==> k == |kids| - 1;
  }

  lemma DetachNext(cells: Cells, p: nat, k: nat, i: nat)
    requires IsForest(cells) && p < |cells| && k < |cells[p].kids| && cells[p].kids[k] < |cells| && i < |cells|
    requires i != cells[p].kids[k]
    ensures Next(Detach(cells, p, k), i) ==
      if k > 0 && i == cells[p].kids[k - 1] then Next(cells, cells[p].kids[k]) else Next(cells, i)
  {
    hide IndexOf, KidsOk, Detach, Without, After;
    var r, kids, c := Detach(cells, p, k), cells[p].kids, cells[p].kids[k];
    DetachCells(cells, p, k);
    NextOfKid(cells, p, k);
    if k > 0 {
      NextOfKid(cells, p, k - 1);
    }
    if cells[i].parent == p {
      AfterWithout(kids, k, i);
    } else if cells[i].parent < |cells| {
      assert r[cells[i].parent].kids == cells[cells[i].parent].kids;
    }
  }

  // ---------- rolling back ----------

  /** The nodes of a part that is closed under links look the same alone. */
  lemma PrefixPicture(before: Cells, cells: Cells)
    requires Shape(before) && before <= cells && |cells| < INVALID_ID
    ensures Picture(cells)[..|before|] == Picture(before)
  {
    hide IndexOf, KidsOk, KidsDistinct;
    forall i | 0 <= i < |before|
      ensures NodeOf(cells, i) == NodeOf(before, i)
    {
      assert cells[i] == before[i];
      if before[i].parent != INVALID_ID {
        assert cells[before[i].parent] == before[before[i].parent];
      }
    }
  }

  // ---------- the array after the writes ----------

  lemma PictureFrom(nodes: seq<Node>, cells: Cells)
    requires |nodes| == |cells| && forall i :: 0 <= i < |cells| ==> nodes[i] == NodeOf(cells, i)
    ensures nodes == Picture(cells)
  {
  }

  /** The nodes once a child has been linked: only child, parent and former last child differ. */
  lemma AttachedNodes(cells: Cells, p: nat, c: nat, key: StringRef, keyFlags: nat, nodes: seq<Node>)
    requires IsForest(cells) && p < |cells| && c < |cells| && p != c && cells[c].parent == INVALID_ID
    requires |nodes| == |cells|
    requires var kids, before := cells[p].kids, Picture(cells);
             && nodes[c] == before[c].(info := before[c].info.(key := key, keyFlags := keyFlags), parent := p,
                 nextSibling := INVALID_ID)
             && nodes[p] == before[p].(firstChild := if kids == [] then c else before[p].firstChild, lastChild := c)
             && (kids != [] ==> Last(kids) < |cells| && nodes[Last(kids)] == before[Last(kids)].(nextSibling := c))
             && forall i :: 0 <= i < |cells| && i != p && i != c && i != Last(kids) ==> nodes[i] == before[i]
    ensures nodes == Picture(Attach(cells, p, c, key, keyFlags))
  {
    hide KidsOk, KidsDistinct, ParentsOk, Acyclic, Attach, Next, Picture;
    AttachPicture(cells, p, c, key, keyFlags);
    var r := Attach(cells, p, c, key, keyFlags);
    forall i | 0 <= i < |cells|
      ensures Picture(cells)[i] == NodeOf(cells, i)
    {
      PictureAt(cells, i);
    }
    assert nodes[c] == NodeOf(r, c);
    assert nodes[p] == NodeOf(r, p);
    assert cells[p].kids != [] ==> nodes[Last(cells[p].kids)] == NodeOf(r, Last(cells[p].kids));
    assert forall i :: 0 <= i < |cells| && i != p && i != c && i != Last(cells[p].kids) ==> nodes[i] == NodeOf(r, i);
    PictureFrom(nodes, r);
  }

  /** The nodes once the `k`-th child has been unlinked. */
  lemma DetachedNodes(cells: Cells, p: nat, k: nat, nodes: seq<Node>)
    requires IsForest(cells) && p < |cells| && k < |cells[p].kids| && cells[p].kids[k] < |cells| && |nodes| == |cells|
    requires var kids, c, before := cells[p].kids, cells[p].kids[k], Picture(cells);
             var previous := if k == 0 then INVALID_ID else kids[k - 1];
             && nodes[c] == before[c].(info := before[c].info.(key := NO_STRING, keyFlags := 0),
                 parent := INVALID_ID, nextSibling := INVALID_ID)
             && nodes[p] == before[p].(firstChild := if k == 0 then before[c].nextSibling else before[p].firstChild,
                                       lastChild := if c == before[p].lastChild then previous else before[p].lastChild)
             && (k > 0 ==>
                   previous < |cells| && nodes[previous] == before[previous].(nextSibling := before[c].nextSibling))
             && forall i :: 0 <= i < |cells| && i != p && i != c && i != previous ==> nodes[i] == before[i]
    ensures nodes == Picture(Detach(cells, p, k))
  {
    hide KidsOk, KidsDistinct, ParentsOk, Acyclic, Detach, Next, Picture;
    DetachPicture(cells, p, k);
    var r := Detach(cells, p, k);
    var c, previous := cells[p].kids[k], if k == 0 then INVALID_ID else cells[p].kids[k - 1];
    forall i | 0 <= i < |cells|
      ensures Picture(cells)[i] == NodeOf(cells, i)
    {
      PictureAt(cells, i);
    }
    assert nodes[c] == NodeOf(r, c);
    assert nodes[p] == NodeOf(r, p);
    assert k > 0 ==> nodes[previous] == NodeOf(r, previous);
    assert forall i :: 0 <= i < |cells| && i != p && i != c && i != previous ==> nodes[i] == NodeOf(r, i);
    PictureFrom(nodes, r);
  }

  /** The nodes involved in linking and unlinking are different ones. */
  lemma AttachDistinct(cells: Cells, p: nat, c: nat)
    requires IsForest(cells) && p < |cells| && c < |cells| && cells[c].parent == INVALID_ID && cells[p].kids != []
    ensures Last(cells[p].kids) < |cells| && Last(cells[p].kids) != p && Last(cells[p].kids) != c
  {
    LastKid(cells, p);
  }

  lemma DetachDistinct(cells: Cells, p: nat, k: nat)
    requires IsForest(cells) && p < |cells| && k < |cells[p].kids|
    ensures cells[p].kids[k] < |cells| && cells[p].kids[k] != p
    ensures k > 0 ==>
      cells[p].kids[k - 1] < |cells| && cells[p].kids[k - 1] != p && cells[p].kids[k - 1] != cells[p].kids[k]
    ensures k > 0 ==> cells[p].kids[k - 1] != INVALID_ID
  {
    KidNotParent(cells, p, cells[p].kids[k]);
    if k > 0 {
      OtherKid(cells, p, k - 1, k);
    }
  }
}

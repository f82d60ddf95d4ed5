/** The forest of value nodes, with the children of a container as one sequence. */
module Forest {
  import opened Json

  datatype ValueType = Invalid | Null | Bool | Number | String | Array | Object

  datatype NumberKind = SignedInteger | UnsignedInteger | FloatingPoint

  datatype StringRef = StringRef(offset: int, length: int)

  datatype Payload =
    | PBool(b: bool)
    | PSigned(i: int)
    | PUnsigned(u: int)
    | PFloat(d: Double)
    | PString(ref: StringRef)

  /** Slab::kInvalidNodeId, and the default StringRef. */
  const INVALID_ID: nat := 65535
  const NO_STRING: StringRef := StringRef(65535, 0)

  /** What a node holds besides its links. */
  datatype Info = Info(
    kind: ValueType, aux: NumberKind, keyFlags: nat, valueFlags: nat, key: StringRef, payload: Payload)

  /** A node as a client sees it: its contents, its parent and its children in order. */
  datatype Cell = Cell(info: Info, parent: nat, kids: seq<nat>)

  type Cells = seq<Cell>

  predicate IsContainer(kind: ValueType) {
    kind == Array || kind == Object
  }

  // ---------- well-formed forests ----------

  /** Children exist and know their parent. */
  ghost predicate KidsOk(cells: Cells) {
    forall p, k :: 0 <= p < |cells| && 0 <= k < |cells[p].kids| ==>
      cells[p].kids[k] < |cells| && cells[cells[p].kids[k]].parent == p
  }

  /** Whoever has a parent is among its children. */
  ghost predicate ParentsOk(cells: Cells) {
    forall c {:trigger cells[c].parent} :: 0 <= c < |cells| && cells[c].parent != INVALID_ID ==>
      cells[c].parent < |cells| && c in cells[cells[c].parent].kids
  }

  /** No node is a child twice, and only containers have children. */
  ghost predicate KidsDistinct(cells: Cells) {
    && (forall p, j, k :: 0 <= p < |cells| && 0 <= j < k < |cells[p].kids| ==> cells[p].kids[j] != cells[p].kids[k])
    && (forall p :: 0 <= p < |cells| && cells[p].kids != [] ==> IsContainer(cells[p].info.kind))
  }

  /** Links between parents and children agree. */
  ghost predicate Shape(cells: Cells) {
    |cells| < INVALID_ID && KidsOk(cells) && ParentsOk(cells) && KidsDistinct(cells)
  }

  /** A number per node, growing towards the root. */
  ghost predicate IsRank(cells: Cells, rank: seq<nat>) {
    |rank| == |cells| &&
    forall c {:trigger cells[c].parent} :: 0 <= c < |cells| && cells[c].parent < |cells| ==>
        rank[c] < rank[cells[c].parent]
  }

  ghost predicate Acyclic(cells: Cells) {
    exists rank: seq<nat> :: IsRank(cells, rank)
  }

  ghost predicate IsForest(cells: Cells) {
    Shape(cells) && Acyclic(cells)
  }

  ghost function RankOf(cells: Cells): (rank: seq<nat>)
    requires Acyclic(cells)
    ensures IsRank(cells, rank)
  {
    var rank: seq<nat> :| IsRank(cells, rank);
    rank
  }

  // ---------- walking upwards ----------

  function Up(cells: Cells, x: nat): nat {
    if x < |cells| then cells[x].parent else INVALID_ID
  }

  /** The ancestor `d` levels above `x`. */
  function Climb(cells: Cells, x: nat, d: nat): nat {
    if d == 0 then x else Up(cells, Climb(cells, x, d - 1))
  }

  /** `a` is `x` or above it. */
  ghost predicate IsAncestor(cells: Cells, a: nat, x: nat) {
    exists d: nat :: Climb(cells, x, d) == a
  }

  lemma {:induction false} ClimbFirst(cells: Cells, x: nat, d: nat)
    requires d > 0
    ensures Climb(cells, x, d) == Climb(cells, Up(cells, x), d - 1)
  {
    if d > 1 {
      ClimbFirst(cells, x, d - 1);
    }
  }

  lemma {:induction false} ClimbAdds(cells: Cells, x: nat, d: nat, e: nat)
    ensures Climb(cells, Climb(cells, x, d), e) == Climb(cells, x, d + e)
  {
    if e > 0 {
      ClimbAdds(cells, x, d, e - 1);
    }
  }

  /** Above a node everything exists and ranks higher, as far up as the climb stays in the forest. */
  lemma {:induction false} ClimbRank(cells: Cells, rank: seq<nat>, x: nat, d: nat)
    requires |cells| < INVALID_ID && IsRank(cells, rank) && Climb(cells, x, d) < |cells|
    ensures x < |cells|
    ensures d > 0 ==> rank[x] < rank[Climb(cells, x, d)]
  {
    if d > 0 {
      var below := Climb(cells, x, d - 1);
      assert cells[below].parent == Climb(cells, x, d);
      ClimbRank(cells, rank, x, d - 1);
    }
  }

  /** A node is its own ancestor only at distance 0. */
  lemma ClimbHome(cells: Cells, x: nat, d: nat)
    requires IsForest(cells) && x < |cells| && Climb(cells, x, d) == x
    ensures d == 0
  {
    ClimbRank(cells, RankOf(cells), x, d);
  }

  lemma AncestorUp(cells: Cells, a: nat, x: nat)
    requires a < |cells| && IsAncestor(cells, a, x)
    ensures IsAncestor(cells, cells[a].parent, x)
  {
    var d: nat :| Climb(cells, x, d) == a;
    assert Climb(cells, x, d + 1) == cells[a].parent;
  }

  lemma AncestorSelf(cells: Cells, x: nat)
    ensures IsAncestor(cells, x, x)
  {
    assert Climb(cells, x, 0) == x;
  }

  lemma KidNotAbove(cells: Cells, p: nat, kid: nat)
    requires IsForest(cells) && p < |cells| && kid < |cells| && cells[kid].parent == p
    ensures !IsAncestor(cells, kid, p)
  {
    if IsAncestor(cells, kid, p) {
      var d: nat :| Climb(cells, p, d) == kid;
      assert Climb(cells, p, d + 1) == p;
      ClimbHome(cells, p, d + 1);
    }
  }

  lemma KidNotParent(cells: Cells, p: nat, kid: nat)
    requires IsForest(cells) && p < |cells| && kid < |cells| && cells[kid].parent == p
    ensures kid != p
  {
    KidNotAbove(cells, p, kid);
    AncestorSelf(cells, p);
  }

  // ---------- positions among siblings ----------

  function IndexOf(kids: seq<nat>, c: nat): (k: nat)
    requires c in kids
    ensures k < |kids| && kids[k] == c
  {
    if kids[0] == c then 0 else 1 + IndexOf(kids[1..], c)
  }

  /** The parent and the position of a child determine each other. */
  lemma IndexIsPosition(cells: Cells, p: nat, k: nat)
    requires Shape(cells) && p < |cells| && k < |cells[p].kids|
    ensures var c := cells[p].kids[k];
            c < |cells| && cells[c].parent == p && c in cells[p].kids && IndexOf(cells[p].kids, c) == k
  {
  }

  // ---------- changing the forest ----------

  function AddCell(cells: Cells, info: Info): Cells {
    cells + [Cell(info, INVALID_ID, [])]
  }

  /** `c` becomes the last child of `p`, under `key`. */
  function Attach(cells: Cells, p: nat, c: nat, key: StringRef, keyFlags: nat): (r: Cells)
    requires p < |cells| && c < |cells|
    ensures |r| == |cells|
  {
    var linked := cells[p := cells[p].(kids := cells[p].kids + [c])];
    linked[c := linked[c].(parent := p, info := linked[c].info.(key := key, keyFlags := keyFlags))]
  }

  function Without(kids: seq<nat>, k: nat): seq<nat>
    requires k < |kids|
  {
    kids[..k] + kids[k + 1..]
  }

  /** The `k`-th child of `p` becomes a root without a key. */
  function Detach(cells: Cells, p: nat, k: nat): (r: Cells)
    requires p < |cells| && k < |cells[p].kids| && cells[p].kids[k] < |cells|
    ensures |r| == |cells|
  {
    var c := cells[p].kids[k];
    var unlinked := cells[p := cells[p].(kids := Without(cells[p].kids, k))];
    unlinked[c := unlinked[c].(parent := INVALID_ID, info := unlinked[c].info.(key := NO_STRING, keyFlags := 0))]
  }

  lemma AddShape(cells: Cells, info: Info)
    requires Shape(cells) && |cells| + 1 < INVALID_ID
    ensures Shape(AddCell(cells, info))
  {
    hide AddCell;
    AddedCells(cells, info);
    var r := AddCell(cells, info);
    assert forall p :: 0 <= p < |r| && r[p].kids != [] ==> p < |cells| && r[p].kids == cells[p].kids;
    forall c | 0 <= c < |r| && r[c].parent != INVALID_ID
      ensures r[c].parent < |r| && c in r[r[c].parent].kids
    {
      assert r[c].parent == cells[c].parent;
    }
  }

  lemma AddedCells(cells: Cells, info: Info)
    ensures var r := AddCell(cells, info);
            && |r| == |cells| + 1 && r[|cells|] == Cell(info, INVALID_ID, [])
            && forall x :: 0 <= x < |cells| ==> r[x] == cells[x]
  {
  }

  lemma AddCellForest(cells: Cells, info: Info)
    requires IsForest(cells) && |cells| + 1 < INVALID_ID
    ensures IsForest(AddCell(cells, info))
  {
    hide KidsOk, ParentsOk, KidsDistinct, AddCell;
    AddShape(cells, info);
    AddedCells(cells, info);
    ParentsInside(cells);
    assert IsRank(AddCell(cells, info), RankOf(cells) + [0]);
  }

  lemma ParentsInside(cells: Cells)
    requires ParentsOk(cells)
    ensures forall c {:trigger cells[c].parent} :: 0 <= c < |cells| ==>
        cells[c].parent < |cells| || cells[c].parent == INVALID_ID
  {
  }

  /** Every position of Attach's result in terms of the old forest. */
  lemma LinkedCells(cells: Cells, p: nat, c: nat, key: StringRef, keyFlags: nat)
    requires p < |cells| && c < |cells| && p != c
    ensures var r := Attach(cells, p, c, key, keyFlags);
            && r[p] == cells[p].(kids := cells[p].kids + [c])
            && r[c] == cells[c].(parent := p, info := cells[c].info.(key := key, keyFlags := keyFlags))
            && forall x :: 0 <= x < |cells| && x != p && x != c ==> r[x] == cells[x]
  {
  }

  lemma AttachKids(cells: Cells, p: nat, c: nat, key: StringRef, keyFlags: nat)
    requires KidsOk(cells) && p < |cells| && c < |cells| < INVALID_ID && p != c && cells[c].parent == INVALID_ID
    ensures KidsOk(Attach(cells, p, c, key, keyFlags))
  {
    hide Attach;
    LinkedCells(cells, p, c, key, keyFlags);
    var r := Attach(cells, p, c, key, keyFlags);
    forall q, k | 0 <= q < |r| && 0 <= k < |r[q].kids|
      ensures r[q].kids[k] < |r| && r[r[q].kids[k]].parent == q
    {
      if q != p || k < |cells[p].kids| {
        assert r[q].kids[k] == cells[q].kids[k];
      }
    }
  }

  lemma AttachParents(cells: Cells, p: nat, c: nat, key: StringRef, keyFlags: nat)
    requires ParentsOk(cells) && p < |cells| && c < |cells| && p != c
    ensures ParentsOk(Attach(cells, p, c, key, keyFlags))
  {
    hide Attach;
    LinkedCells(cells, p, c, key, keyFlags);
    var r := Attach(cells, p, c, key, keyFlags);
    forall x | 0 <= x < |r| && r[x].parent != INVALID_ID
      ensures r[x].parent < |r| && x in r[r[x].parent].kids
    {
      if x == c {
        assert r[p].kids[|cells[p].kids|] == c;
      } else {
        assert r[x].parent == cells[x].parent;
      }
    }
  }

  lemma AttachKidsDistinct(cells: Cells, p: nat, c: nat, key: StringRef, keyFlags: nat)
    requires KidsOk(cells) && KidsDistinct(cells) && p < |cells| && c < |cells| < INVALID_ID && p != c
    requires cells[c].parent == INVALID_ID && IsContainer(cells[p].info.kind)
    ensures KidsDistinct(Attach(cells, p, c, key, keyFlags))
  {
    hide Attach;
    LinkedCells(cells, p, c, key, keyFlags);
    var r := Attach(cells, p, c, key, keyFlags);
    assert c !in cells[p].kids;
    forall q, j, k | 0 <= q < |r| && 0 <= j < k < |r[q].kids|
      ensures r[q].kids[j] != r[q].kids[k]
    {
      assert r[q].kids[j] == cells[q].kids[j];
      assert q != p ==> r[q].kids[k] == cells[q].kids[k];
    }
  }

  lemma AttachShape(cells: Cells, p: nat, c: nat, key: StringRef, keyFlags: nat)
    requires Shape(cells) && p < |cells| && c < |cells| && p != c
    requires cells[c].parent == INVALID_ID && IsContainer(cells[p].info.kind)
    ensures Shape(Attach(cells, p, c, key, keyFlags))
  {
    hide KidsOk, ParentsOk, KidsDistinct, Attach;
    AttachKids(cells, p, c, key, keyFlags);
    AttachParents(cells, p, c, key, keyFlags);
    AttachKidsDistinct(cells, p, c, key, keyFlags);
  }

  /** Linking where no cycle arises: the ancestors of the new parent move above the new child. */
  lemma AttachForest(cells: Cells, p: nat, c: nat, key: StringRef, keyFlags: nat)
    requires IsForest(cells) && p < |cells| && c < |cells|
    requires cells[c].parent == INVALID_ID && IsContainer(cells[p].info.kind) && !IsAncestor(cells, c, p)
    ensures IsForest(Attach(cells, p, c, key, keyFlags))
  {
    AncestorSelf(cells, p);
    AttachShape(cells, p, c, key, keyFlags);
    var rank := RankOf(cells);
    var n := |cells|;
    var r := Attach(cells, p, c, key, keyFlags);
    var raised: seq<nat> :=
      seq(n, x requires 0 <= x < n => if IsAncestor(cells, x, p) then rank[x] + rank[c] + 1 else rank[x]);
    forall x | 0 <= x < n && r[x].parent < n
      ensures raised[x] < raised[r[x].parent]
    {
      if x != c {
        assert r[x].parent == cells[x].parent;
        if IsAncestor(cells, x, p) {
          AncestorUp(cells, x, p);
        }
      }
    }
    assert IsRank(r, raised);
  }

  /** Linking a node under itself or below itself always makes a cycle. */
  lemma AttachCycle(cells: Cells, p: nat, c: nat, key: StringRef, keyFlags: nat)
    requires IsForest(cells) && p < |cells| && c < |cells|
    requires cells[c].parent == INVALID_ID && IsAncestor(cells, c, p)
    ensures !Acyclic(Attach(cells, p, c, key, keyFlags))
  {
    var r := Attach(cells, p, c, key, keyFlags);
    if Acyclic(r) {
      var d: nat :| Climb(cells, p, d) == c;
      assert r[c].parent == p;
      BelowRanksLower(cells, r, RankOf(r), p, c, d);
    }
  }

  lemma {:induction false} BelowRanksLower(cells: Cells, r: Cells, rank: seq<nat>, x: nat, c: nat, d: nat)
    requires |r| == |cells| < INVALID_ID && IsRank(r, rank) && Climb(cells, x, d) == c && c < |cells| && x < |cells|
    requires forall y :: 0 <= y < |cells| && y != c ==> r[y].parent == cells[y].parent
    ensures rank[x] <= rank[c]
    decreases d
  {
    if x != c {
      var up := cells[x].parent;
      assert r[x].parent == up;
      ClimbFirst(cells, x, d);
      if up >= |cells| {
        ClimbLost(cells, up, d - 1);
      } else {
        BelowRanksLower(cells, r, rank, up, c, d - 1);
      }
    }
  }

  /** Outside the forest there is no way back in. */
  lemma {:induction false} ClimbLost(cells: Cells, x: nat, d: nat)
    requires |cells| < INVALID_ID && x >= |cells|
    ensures Climb(cells, x, d) >= |cells|
  {
    if d > 0 {
      ClimbLost(cells, x, d - 1);
    }
  }

  /** Every position of Detach's result in terms of the old forest. */
  lemma DetachCells(cells: Cells, p: nat, k: nat)
    requires IsForest(cells) && p < |cells| && k < |cells[p].kids|
    ensures cells[p].kids[k] < |cells| && cells[p].kids[k] != p
    ensures var r := Detach(cells, p, k);
            var c, kids := cells[p].kids[k], cells[p].kids;
            && r[p].kids == Without(kids, k) && r[p].parent == cells[p].parent && r[p].info == cells[p].info
            && r[c].kids == cells[c].kids && r[c].parent == INVALID_ID
            && r[c].info == cells[c].info.(key := NO_STRING, keyFlags := 0)
            && (forall x :: 0 <= x < |cells| && x != p && x != c ==> r[x] == cells[x])
  {
    assert cells[cells[p].kids[k]].parent == p;
    var rank := RankOf(cells);
  }

  lemma WithoutAt(kids: seq<nat>, k: nat, j: nat)
    requires k < |kids| && j < |kids| - 1
    ensures Without(kids, k)[j] == kids[if j < k then j else j + 1]
  {
  }

  lemma WithoutIn(kids: seq<nat>, k: nat, x: nat)
    requires k < |kids| && x in kids && x != kids[k]
    ensures x in Without(kids, k)
  {
    var i := IndexOf(kids, x);
    assert Without(kids, k)[if i < k then i else i - 1] == x;
  }

  lemma DetachKids(cells: Cells, p: nat, k: nat)
    requires IsForest(cells) && p < |cells| && k < |cells[p].kids| && cells[p].kids[k] < |cells|
    ensures KidsOk(Detach(cells, p, k)) && KidsDistinct(Detach(cells, p, k))
  {
    hide ParentsOk, Without, Acyclic, IsRank;
    DetachCells(cells, p, k);
    WithoutLength(cells[p].kids, k);
    var r := Detach(cells, p, k);
    assert forall q :: 0 <= q < |r| && q != p ==> r[q].kids == cells[q].kids;
    forall q, j | 0 <= q < |r| && 0 <= j < |r[q].kids|
      ensures r[q].kids[j] == cells[q].kids[if q == p && j >= k then j + 1 else j]
    {
      if q == p {
        WithoutAt(cells[p].kids, k, j);
      }
    }
  }

  lemma WithoutLength(kids: seq<nat>, k: nat)
    requires k < |kids|
    ensures |Without(kids, k)| == |kids| - 1
  {
  }

  lemma DetachParents(cells: Cells, p: nat, k: nat)
    requires IsForest(cells) && p < |cells| && k < |cells[p].kids| && cells[p].kids[k] < |cells|
    ensures ParentsOk(Detach(cells, p, k))
  {
    hide KidsDistinct, Without, Acyclic, IsRank;
    DetachCells(cells, p, k);
    var r := Detach(cells, p, k);
    forall x | 0 <= x < |r| && r[x].parent != INVALID_ID
      ensures r[x].parent < |r| && x in r[r[x].parent].kids
    {
      assert r[x].parent == cells[x].parent;
      if cells[x].parent == p {
        WithoutIn(cells[p].kids, k, x);
      }
    }
  }

  lemma DetachForest(cells: Cells, p: nat, k: nat)
    requires IsForest(cells) && p < |cells| && k < |cells[p].kids| && cells[p].kids[k] < |cells|
    ensures IsForest(Detach(cells, p, k))
  {
    hide KidsDistinct, KidsOk, ParentsOk, Without;
    DetachKids(cells, p, k);
    DetachParents(cells, p, k);
    DetachCells(cells, p, k);
    var r := Detach(cells, p, k);
    var rank := RankOf(cells);
    assert forall x :: 0 <= x < |r| && r[x].parent < |r| ==> r[x].parent == cells[x].parent;
    assert IsRank(r, rank);
  }
}

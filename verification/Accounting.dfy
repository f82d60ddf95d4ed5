/** Trees in a slab never claim more than the slab has handed out; hence output sizes are bounded. */
module Accounting {
  import opened Base
  import opened Json
  import opened Forest
  import opened Dom
  import opened Clone
  import Text
  import Utf8

  // ---------- finite sets ----------

  lemma {:induction false} SubsetSize<T>(a: set<T>, b: set<T>)
    requires a <= b
    ensures |a| <= |b|
  {
    if a != {} {
      var x :| x in a;
      SubsetSize(a - {x}, b - {x});
    }
  }

  lemma {:induction false} BelowSize(n: nat)
    ensures |Below(n)| == n
  {
    if n > 0 {
      BelowSize(n - 1);
    }
  }

  /** The storage positions of a string. */
  ghost function Positions(from: int, length: nat): (b: set<int>)
    ensures forall q :: q in b <==> from <= q < from + length
    ensures |b| == length
  {
    if length == 0 then {} else Positions(from, length - 1) + {from + length - 1}
  }

  // ---------- owners of bytes ----------

  predicate Occupies(cells: Cells, y: nat, isKey: bool, q: int) {
    y < |cells| && Ref(cells[y], isKey).offset <= q < Ref(cells[y], isKey).offset + Ref(cells[y], isKey).length
  }

  /** A byte belongs to one string only. */
  lemma OneOwner(s: State, y: nat, a: bool, z: nat, b: bool, q: int)
    requires Inv(s) && Occupies(s.cells, y, a, q) && Occupies(s.cells, z, b, q)
    ensures y == z && a == b
  {
    hide IsForest, InfosOk, KeysOk, CountersOk;
    assert y != z || a != b ==> Apart(Ref(s.cells[y], a), Ref(s.cells[z], b));
  }

  /** Some node of `d` owns the byte, the key of `root` not counting. */
  ghost predicate Owned(s: State, d: set<nat>, root: nat, q: int) {
    exists y, a :: y in d && (a ==> y != root) && Occupies(s.cells, y, a, q)
  }

  ghost predicate AllOwned(s: State, d: set<nat>, root: nat, b: set<int>) {
    forall q :: q in b ==> Owned(s, d, root, q) && s.capacity - |s.heap| <= q < s.capacity
  }

  lemma BytesApart(s: State, d: set<nat>, root: nat, b: set<int>, e: set<nat>, other: nat, c: set<int>)
    requires Inv(s) && AllOwned(s, d, root, b) && AllOwned(s, e, other, c) && d !! e
    ensures b !! c
  {
    hide Inv, Occupies;
    forall q | q in b && q in c
      ensures false
    {
      assert Owned(s, d, root, q) && Owned(s, e, other, q);
      var y, a :| y in d && (a ==> y != root) && Occupies(s.cells, y, a, q);
      var z, f :| z in e && (f ==> z != other) && Occupies(s.cells, z, f, q);
      OneOwner(s, y, a, z, f, q);
    }
  }

  /** The bytes of a string that must be there. */
  lemma RefBytes(s: State, y: nat, isKey: bool) returns (b: set<int>)
    requires Inv(s) && y < |s.cells|
    ensures |b| == |View(s, Ref(s.cells[y], isKey))|
    ensures forall q :: q in b <==> Occupies(s.cells, y, isKey, q)
    ensures forall q :: q in b ==> s.capacity - |s.heap| <= q < s.capacity
  {
    hide IsForest, Disjoint;
    RefLive(s, y, isKey);
    var r := Ref(s.cells[y], isKey);
    b := Positions(r.offset, r.length);
  }

  // ---------- trees ----------

  /** The nodes and bytes of a tree: exactly as many as its value needs, all of them its own. */
  ghost predicate Account(s: State, x: nat, d: set<nat>, b: set<int>)
    requires Inv(s) && x < |s.cells|
  {
    && x in d && |d| == Nodes(Denote(s, x)) && |b| == Strings(Denote(s, x))
    && (forall y :: y in d ==> y < |s.cells| && IsAncestor(s.cells, x, y))
    && AllOwned(s, d, x, b)
  }

  /** The same for the children of `x` from the `k`-th on, with their keys. */
  ghost predicate AccountKids(s: State, x: nat, k: nat, d: set<nat>, b: set<int>)
    requires Inv(s) && x < |s.cells| && k <= |s.cells[x].kids|
  {
    && |d| == NodesOf(Members(s, x, k)) && |b| == StringsOf(Members(s, x, k))
    && (forall y :: y in d ==> y < |s.cells| && y != x && BelowKid(s.cells, x, k, y))
    && AllOwned(s, d, x, b)
  }

  ghost predicate BelowKid(cells: Cells, x: nat, k: nat, y: nat) {
    x < |cells| && exists j :: k <= j < |cells[x].kids| && IsAncestor(cells, cells[x].kids[j], y)
  }

  lemma {:induction false} TreeAccount(s: State, x: nat) returns (d: set<nat>, b: set<int>)
    requires Inv(s) && x < |s.cells|
    ensures Account(s, x, d, b)
    decreases RankOf(s.cells)[x], 1, 0
  {
    hide Shape, Acyclic, Disjoint, KeysOk, InfosOk, CountersOk, Denote, Members, Occupies, IsAncestor, BelowKid,
         AllOwned, Account;
    var e, c := KidsAccount(s, x, 0);
    DenoteFromShallow(s, x);
    d, b := OwnAccount(s, x, e, c);
  }

  /** A node on top of its children. */
  lemma OwnAccount(s: State, x: nat, e: set<nat>, c: set<int>) returns (d: set<nat>, b: set<int>)
    requires Inv(s) && x < |s.cells| && AccountKids(s, x, 0, e, c)
    requires Nodes(Denote(s, x)) == 1 + NodesOf(Members(s, x, 0))
    requires Strings(Denote(s, x)) == Strings(Shallow(s, x)) + StringsOf(Members(s, x, 0))
    ensures Account(s, x, d, b)
  {
    hide Shape, Acyclic, Disjoint, KeysOk, InfosOk, CountersOk, Denote, Members, Occupies, IsAncestor, Shallow,
         View, BelowKid, Owned;
    ShallowSize(s, x);
    AncestorSelf(s.cells, x);
    var own := RefBytes(s, x, false);
    PayloadIsView(s, x);
    forall y | y in e
      ensures IsAncestor(s.cells, x, y)
    {
      KidBelow(s.cells, x, y);
    }
    d, b := {x} + e, own + c;
    OwnOwned(s, x, own);
    BytesApart(s, {x}, x, own, e, x, c);
    Widen(s, {x}, x, own, d, x);
    Widen(s, e, x, c, d, x);
  }

  lemma OwnOwned(s: State, x: nat, own: set<int>)
    requires forall q :: q in own ==> Occupies(s.cells, x, false, q) && s.capacity - |s.heap| <= q < s.capacity
    ensures AllOwned(s, {x}, x, own)
  {
    hide Occupies;
    forall q | q in own
      ensures Owned(s, {x}, x, q)
    {
      assert x in {x} && Occupies(s.cells, x, false, q);
    }
  }

  lemma PayloadIsView(s: State, x: nat)
    requires x < |s.cells|
    ensures PayloadText(s, s.cells[x].info) == View(s, Ref(s.cells[x], false))
  {
  }

  lemma KidBelow(cells: Cells, x: nat, y: nat)
    requires IsForest(cells) && x < |cells| && BelowKid(cells, x, 0, y)
    ensures IsAncestor(cells, x, y)
  {
    var j :| 0 <= j < |cells[x].kids| && IsAncestor(cells, cells[x].kids[j], y);
    AncestorUp(cells, cells[x].kids[j], y);
  }

  /** More owners do no harm, as long as the key that does not count is not counted. */
  lemma Widen(s: State, d: set<nat>, root: nat, b: set<int>, e: set<nat>, other: nat)
    requires AllOwned(s, d, root, b) && d <= e && (other in d ==> other == root)
    ensures AllOwned(s, e, other, b)
  {
    hide Occupies;
    forall q | q in b
      ensures Owned(s, e, other, q)
    {
      assert Owned(s, d, root, q);
      var y, a :| y in d && (a ==> y != root) && Occupies(s.cells, y, a, q);
      assert y in e && (a ==> y != other);
    }
  }

  lemma {:induction false} KidsAccount(s: State, x: nat, k: nat) returns (d: set<nat>, b: set<int>)
    requires Inv(s) && x < |s.cells| && k <= |s.cells[x].kids|
    ensures AccountKids(s, x, k, d, b)
    decreases RankOf(s.cells)[x], 0, |s.cells[x].kids| - k
  {
    hide Shape, Acyclic, IsRank, Disjoint, KeysOk, InfosOk, CountersOk, Denote, Occupies, IsAncestor, Account;
    if k == |s.cells[x].kids| {
      d, b := {}, {};
      assert Members(s, x, k) == [];
    } else {
      KidValid(s, x, k);
      var d1, b1 := TreeAccount(s, s.cells[x].kids[k]);
      var d2, b2 := KidsAccount(s, x, k + 1);
      d, b := JoinAccounts(s, x, k, d1, b1, d2, b2);
    }
  }

  /** One child, its key, and the later children share nothing. */
  lemma JoinAccounts(s: State, x: nat, k: nat, d1: set<nat>, b1: set<int>, d2: set<nat>, b2: set<int>)
    returns (d: set<nat>, b: set<int>)
    requires Inv(s) && x < |s.cells| && k < |s.cells[x].kids| && s.cells[x].kids[k] < |s.cells|
    requires Account(s, s.cells[x].kids[k], d1, b1) && AccountKids(s, x, k + 1, d2, b2)
    ensures AccountKids(s, x, k, d, b)
  {
    hide Shape, Acyclic, Disjoint, KeysOk, InfosOk, CountersOk, Denote, Members, Occupies, IsAncestor, View,
         AllOwned, BelowKid, KeyOf;
    var c := s.cells[x].kids[k];
    MembersStep(s, x, k);
    KidTreesApart(s.cells, x, k, d1, d2);
    var key := KeyBytes(s, x, c);
    KeyApart(s, x, c, key, d1, b1, d2, b2);
    d, b := d1 + d2, b1 + key + b2;
    BytesApart(s, d1, c, b1, d2, x, b2);
    JoinOwned(s, x, c, key, d1, b1, d2, b2);
    forall y | y in d
      ensures y < |s.cells| && y != x && BelowKid(s.cells, x, k, y)
    {
      KidEarlier(s.cells, x, k, y, y in d1);
    }
  }

  /** The bytes of a member's key; none for an element. */
  lemma KeyBytes(s: State, x: nat, c: nat) returns (b: set<int>)
    requires Inv(s) && x < |s.cells| && c < |s.cells| && s.cells[c].parent == x
    ensures |b| == |KeyOf(s, x, c)|
    ensures forall q :: q in b ==> Occupies(s.cells, c, true, q) && s.capacity - |s.heap| <= q < s.capacity
  {
    hide IsForest, Disjoint, InfosOk, KeysOk, Occupies, View;
    if s.cells[x].info.kind == Object {
      b := RefBytes(s, c, true);
    } else {
      b := {};
    }
  }

  lemma KeyApart(s: State, x: nat, c: nat, key: set<int>, d1: set<nat>, b1: set<int>, d2: set<nat>, b2: set<int>)
    requires Inv(s) && c in d1 && d1 !! d2 && AllOwned(s, d1, c, b1) && AllOwned(s, d2, x, b2)
    requires forall q :: q in key ==> Occupies(s.cells, c, true, q)
    ensures key !! b1 && key !! b2
  {
    hide Inv, Occupies;
    forall q | q in key && (q in b1 || q in b2)
      ensures false
    {
      if q in b1 {
        assert Owned(s, d1, c, q);
        var y, a :| y in d1 && (a ==> y != c) && Occupies(s.cells, y, a, q);
        OneOwner(s, y, a, c, true, q);
      } else {
        assert Owned(s, d2, x, q);
        var y, a :| y in d2 && (a ==> y != x) && Occupies(s.cells, y, a, q);
        OneOwner(s, y, a, c, true, q);
      }
    }
  }

  lemma JoinOwned(s: State, x: nat, c: nat, key: set<int>, d1: set<nat>, b1: set<int>, d2: set<nat>, b2: set<int>)
    requires c in d1 && x !in d1 && x !in d2 && AllOwned(s, d1, c, b1) && AllOwned(s, d2, x, b2)
    requires forall q :: q in key ==> Occupies(s.cells, c, true, q) && s.capacity - |s.heap| <= q < s.capacity
    ensures AllOwned(s, d1 + d2, x, b1 + key + b2)
  {
    hide Occupies;
    Widen(s, d1, c, b1, d1 + d2, x);
    Widen(s, d2, x, b2, d1 + d2, x);
    forall q | q in key
      ensures Owned(s, d1 + d2, x, q)
    {
      assert c in d1 + d2 && Occupies(s.cells, c, true, q);
    }
  }

  /** Nodes below different children are different. */
  lemma KidTreesApart(cells: Cells, x: nat, k: nat, d1: set<nat>, d2: set<nat>)
    requires IsForest(cells) && x < |cells| && k < |cells[x].kids|
    requires forall y :: y in d1 ==> y < |cells| && IsAncestor(cells, cells[x].kids[k], y)
    requires forall y :: y in d2 ==> y < |cells| && y != x && BelowKid(cells, x, k + 1, y)
    ensures d1 !! d2 && x !in d1
  {
    hide IsAncestor, Shape, Acyclic;
    forall y | y in d1 && y in d2
      ensures false
    {
      var j :| k + 1 <= j < |cells[x].kids| && IsAncestor(cells, cells[x].kids[j], y);
      OneKidAbove(cells, x, k, j, y);
    }
    if x in d1 {
      KidValidCells(cells, x, k);
      KidNotAbove(cells, x, cells[x].kids[k]);
    }
  }

  lemma KidValidCells(cells: Cells, x: nat, k: nat)
    requires IsForest(cells) && x < |cells| && k < |cells[x].kids|
    ensures cells[x].kids[k] < |cells| && cells[cells[x].kids[k]].parent == x
  {
  }

  lemma OneKidAbove(cells: Cells, x: nat, k: nat, j: nat, y: nat)
    requires IsForest(cells) && x < |cells| && k < j < |cells[x].kids|
    ensures !(IsAncestor(cells, cells[x].kids[k], y) && IsAncestor(cells, cells[x].kids[j], y))
  {
    var a, b := cells[x].kids[k], cells[x].kids[j];
    if IsAncestor(cells, a, y) && IsAncestor(cells, b, y) {
      var d: nat :| Climb(cells, y, d) == a;
      var e: nat :| Climb(cells, y, e) == b;
      if d <= e {
        KidOverKid(cells, x, a, b, y, d, e);
      } else {
        KidOverKid(cells, x, b, a, y, e, d);
      }
    }
  }

  lemma KidOverKid(cells: Cells, x: nat, a: nat, b: nat, y: nat, d: nat, e: nat)
    requires IsForest(cells) && x < |cells| && a < |cells| && b < |cells| && cells[a].parent == x
    requires cells[b].parent == x
    requires Climb(cells, y, d) == a && Climb(cells, y, e) == b && d <= e
    ensures a == b
  {
    if d < e {
      ClimbAdds(cells, y, d, e - d);
      ClimbFirst(cells, a, e - d);
      assert Climb(cells, x, e - d - 1) == b;
      KidNotAbove(cells, x, b);
    }
  }

  lemma KidEarlier(cells: Cells, x: nat, k: nat, y: nat, first: bool)
    requires x < |cells| && k < |cells[x].kids|
    requires if first then IsAncestor(cells, cells[x].kids[k], y) else BelowKid(cells, x, k + 1, y)
    ensures BelowKid(cells, x, k, y)
  {
    hide IsAncestor;
  }

  // ---------- the bounds ----------

  /** The footprint of a tree is part of the bytes in use. */
  lemma FootprintUsed(s: State, x: nat)
    requires Inv(s) && x < |s.cells|
    ensures Nodes(Denote(s, x)) <= |s.cells| && Strings(Denote(s, x)) <= |s.heap|
    ensures Footprint(Denote(s, x)) <= UsedBytes(s) <= s.capacity
  {
    hide IsForest, Disjoint, KeysOk, InfosOk, Owned, IsAncestor;
    var d, b := TreeAccount(s, x);
    BelowSize(|s.cells|);
    SubsetSize(d, Below(|s.cells|));
    SubsetSize(b, Positions(s.capacity - |s.heap|, |s.heap|));
  }

  /** Every tree of a slab can be stored, printed and read. */
  lemma {:induction false} DenoteStorable(s: State, x: nat)
    requires Inv(s) && x < |s.cells|
    ensures Storable(Denote(s, x))
    decreases RankOf(s.cells)[x], 1, 0
  {
    hide Shape, Acyclic, IsRank, Disjoint, KeysOk, View, Live, Members, Utf8.Valid, Text.Flags;
    assert InfoOk(s, s.cells[x].info);
    MembersStorable(s, x, 0);
  }

  lemma {:induction false} MembersStorable(s: State, x: nat, k: nat)
    requires Inv(s) && x < |s.cells| && k <= |s.cells[x].kids|
    ensures AllStorable(s.cells[x].info.kind == Object, Members(s, x, k))
    decreases RankOf(s.cells)[x], 0, |s.cells[x].kids| - k
  {
    hide Shape, Acyclic, IsRank, Disjoint, KeysOk, InfosOk, View, Live, Denote, KeyOf;
    if k == |s.cells[x].kids| {
      assert Members(s, x, k) == [];
    } else {
      KidValid(s, x, k);
      MembersStep(s, x, k);
      DenoteStorable(s, s.cells[x].kids[k]);
      SourceKey(s, x, s.cells[x].kids[k]);
      MembersStorable(s, x, k + 1);
    }
  }

  const SIZE_MAX_32: nat := 0xFFFF_FFFF

  /** No output, pretty or compact, reaches the end of a 32-bit counter. */
  lemma OutputBound(s: State, x: nat, f: Text.Format)
    requires Inv(s) && x < |s.cells|
    ensures |Text.Print(Denote(s, x), f, 0)| < SIZE_MAX_32
    ensures |s.cells| * 255 < SIZE_MAX_32
  {
    hide IsForest, Disjoint, KeysOk, InfosOk, Denote, Text.Print, Text.Charge, Nodes, Strings, Storable;
    FootprintUsed(s, x);
    DenoteStorable(s, x);
    Text.PrintBound(Denote(s, x), f, 0, 2730);
    Text.ChargeLimit(Nodes(Denote(s, x)));
  }
}

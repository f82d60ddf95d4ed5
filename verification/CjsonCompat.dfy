/** The cJSON-style operations with logic of their own: detaching, deep copying and NUL-terminated printing. */
module CjsonCompat {
  import opened Base
  import opened Json
  import opened Forest
  import opened Links
  import opened Dom
  import opened Ops
  import opened Build
  import opened Spec
  import opened Slabs
  import opened Clone
  import opened Copying
  import Containers
  import opened Serialize
  import Text
  import Utf8

  // ---------- detaching ----------

  /** node_for_parent and invalid_parent_error. */
  method CheckParent(parent: Value, kind: ValueType) returns (r: Result<()>)
    requires parent.slab != null ==> parent.slab.Glued()
    ensures parent.slab == null ==> r == Fail(InvalidHandle)
    ensures parent.slab != null ==>
      var s := parent.slab.Contents();
      r == if !LiveHandle(s, HandleOf(parent)) then Fail(InvalidHandle)
           else if s.cells[parent.id].info.kind != kind then Fail(TypeMismatch)
           else Ok(())
  {
    hide Tail, Shape, Picture;
    if parent.slab == null || !parent.slab.IsLive(parent.id, parent.generation) {
      return Fail(InvalidHandle);
    }
    parent.slab.NodeAt(parent.id);
    if parent.slab.nodes[parent.id].info.kind != kind {
      return Fail(TypeMismatch);
    }
    return Ok(());
  }

  /** detach_from_array. */
  method DetachFromArray(parent: Value, index: nat) returns (r: Result<Value>)
    requires parent.slab != null ==> parent.slab.Valid()
    modifies Region(parent.slab)
    ensures parent.slab == null ==> r == Fail(InvalidHandle)
    ensures parent.slab != null ==> parent.slab.Valid()
    ensures parent.slab != null ==>
      RemovedAt(old(parent.slab.Contents()), HandleOf(parent), index, parent.slab.Contents(), r)
    ensures r.Ok? ==>
      r.value == Value(parent.slab, FoundAt(old(parent.slab.Contents()), HandleOf(parent), index), parent.generation)
  {
    hide Tail, Shape, Acyclic, Picture, InfosOk, KeysOk, Disjoint, Detach;
    var checked := CheckParent(parent, Array);
    if checked.Err? {
      return Err(checked.error);
    }
    var slab := parent.slab;
    ghost var s := slab.Contents();
    var previousId, childId := Containers.LocateAt(slab, parent.id, index);
    if childId == INVALID_ID {
      return Fail(NotFound);
    }
    slab.Unlink(parent.id, previousId, childId, index);
    DetachInv(s, parent.id, index);
    return Ok(Value(slab, childId, slab.generation));
  }

  /** detach_from_object. */
  method DetachFromObject(parent: Value, key: bytes, exact: bool) returns (r: Result<Value>)
    requires parent.slab != null ==> parent.slab.Valid()
    modifies Region(parent.slab)
    ensures parent.slab == null ==> r == Fail(InvalidHandle)
    ensures parent.slab != null ==> parent.slab.Valid()
    ensures parent.slab != null ==>
      RemovedKey(old(parent.slab.Contents()), HandleOf(parent), key, exact, parent.slab.Contents(), r)
    ensures r.Ok? ==> parent.slab != null
    ensures r.Ok? ==>
      && r.value.id == FoundKey(old(parent.slab.Contents()), HandleOf(parent), key, exact)
      && r.value.slab == parent.slab && r.value.generation == parent.generation
  {
    hide Tail, Shape, Acyclic, Picture, InfosOk, KeysOk, Disjoint, FirstMatch, Members, KeyOf, View, Live, Denote,
         Detach;
    var checked := CheckParent(parent, Object);
    if checked.Err? {
      return Err(checked.error);
    }
    var slab := parent.slab;
    ghost var s := slab.Contents();
    var previousId, childId, k := Containers.Locate(slab, parent.id, key, exact);
    if childId == INVALID_ID {
      return Fail(NotFound);
    }
    slab.Unlink(parent.id, previousId, childId, k);
    DetachInv(s, parent.id, k);
    return Ok(Value(slab, childId, slab.generation));
  }

  // ---------- one node of a copy ----------

  /** The state clone_node leaves: a root with the node's contents, its own string and, if asked for, its own key. */
  function Cloned(d: State, s: State, info: Info, copyKey: bool, key: bytes): State {
    var t := CloneNode(d, s, info);
    PlantKey(t, copyKey, key).(cells := AddCell(d.cells, CopiedInfo(d, s, info).(key := KeyRef(t, copyKey, key))))
  }

  /** Two slabs are one or share no memory; `s` is what the source held when copying began. */
  ghost predicate SourceOf(source: Slab, destination: Slab, s: State)
    reads source, source.storage, source.nodes
  {
    && (source == destination || (source.storage != destination.storage && source.nodes != destination.nodes))
    && source.Glued() && Extends(s, source.Contents())
  }

  /** The bytes a string of the source had are still there, even if the copy goes into the same slab. */
  method FetchString(destination: Slab, source: Slab, ref: StringRef, ghost s: State) returns (r: Result<StringRef>)
    requires destination.Glued() && destination.valid && SourceOf(source, destination, s) && Live(s, ref)
    modifies destination`stringBytesUsed, destination.storage
    ensures destination.Glued() && SourceOf(source, destination, s)
    ensures r.Ok? <==> |View(s, ref)| <= Remaining(old(destination.Contents()))
    ensures r.Ok? ==> r.value == NewRef(old(destination.Contents()), View(s, ref))
    ensures r.Ok? ==> destination.Contents() == AddString(old(destination.Contents()), View(s, ref))
    ensures r.Err? ==> destination.Contents() == old(destination.Contents()) && r.error.code == StringCapacityExceeded
  {
    hide Tail, Shape, Picture, Inv, View, Live, AddString, NewRef, IsSuffix;
    ViewStable(s, source.Contents(), ref);
    var text := source.ViewString(ref);
    ghost var d := destination.Contents();
    r := destination.CopyString(text);
    if r.Ok? {
      AddStringGrows(d, text);
      if source == destination {
        ExtendsTransitive(s, d, destination.Contents());
      }
    }
  }

  lemma AddStringGrows(s: State, data: bytes)
    ensures Extends(s, AddString(s, data))
  {
    SuffixConcat(data, s.heap);
  }

  /** Filling in a new node: it stays behind everything that was there. */
  lemma NodeFilled(d: State, t: State, id: nat, info: Info)
    requires Extends(d, t) && id == |d.cells| < |t.cells|
    ensures Extends(d, t.(cells := t.cells[id := t.cells[id].(info := info)]))
  {
    hide IsSuffix;
  }

  lemma InfoSet(cells: Cells, before: Info, info: Info)
    ensures var added := AddCell(cells, before);
            added[|cells| := added[|cells|].(info := info)] == AddCell(cells, info)
  {
  }

  lemma SourceKept(source: Slab, destination: Slab, s: State, d: State)
    requires source == destination ==> Extends(s, d) && Extends(d, destination.Contents())
    requires (source == destination || (source.storage != destination.storage && source.nodes != destination.nodes))
    requires source.Glued() && (source != destination ==> Extends(s, source.Contents()))
    ensures SourceOf(source, destination, s)
  {
    if source == destination {
      ExtendsTransitive(s, d, destination.Contents());
    }
  }

  lemma AddNodeGrows(s: State, info: Info)
    ensures Extends(s, AddNode(s, info))
  {
    SuffixSelf(s.heap);
  }

  /** The node of a copy with the source's contents, strings still to come. */
  method CloneBlank(destination: Slab, source: Slab, info: Info, ghost s: State) returns (r: Result<nat>)
    requires destination.Glued() && destination.valid && SourceOf(source, destination, s)
    modifies destination.Repr()
    ensures destination.Glued() && SourceOf(source, destination, s)
    ensures r.Ok? <==> NODE_BYTES <= Remaining(old(destination.Contents()))
    ensures r.Ok? ==> r.value == |old(destination.Contents()).cells|
    ensures r.Ok? ==> destination.Contents() == AddNode(old(destination.Contents()), info.(key := NO_STRING))
    ensures r.Err? ==> destination.Contents() == old(destination.Contents()) && r.error.code == OutOfMemory
  {
    hide Tail, Shape, Picture, Inv, IsSuffix, AddCell, Extends;
    ghost var d := destination.Contents();
    destination.Counters();
    var node := destination.AllocateNode(info.kind);
    if node.Err? {
      return node;
    }
    var id := node.value;
    destination.Counters();
    FreshCell(d.cells, info.kind);
    destination.SetInfo(id, info.(key := NO_STRING));
    InfoSet(d.cells, FreshInfo(info.kind), info.(key := NO_STRING));
    AddNodeGrows(d, info.(key := NO_STRING));
    SourceKept(source, destination, s, d);
    return Ok(id);
  }

  /** The part of clone_node before the key: the node, its contents and its string. */
  method CloneBare(destination: Slab, source: Slab, info: Info, ghost s: State, ghost x: nat) returns (r: Result<nat>)
    requires destination.Glued() && destination.valid && SourceOf(source, destination, s)
    requires Inv(s) && x < |s.cells| && info == s.cells[x].info
    modifies destination.Repr()
    ensures destination.Glued() && SourceOf(source, destination, s)
    ensures r.Ok? <==> NODE_BYTES + |PayloadText(s, info)| <= Remaining(old(destination.Contents()))
    ensures r.Ok? ==> r.value == |old(destination.Contents()).cells|
    ensures r.Ok? ==> destination.Contents() == CloneNode(old(destination.Contents()), s, info)
    ensures Extends(old(destination.Contents()), destination.Contents())
    ensures r.Err? ==> r.error.code in {OutOfMemory, StringCapacityExceeded}
  {
    hide Tail, Shape, Picture, Inv, View, Live, AddString, IsSuffix, PayloadText, NewRef, AddCell, Extends, SourceOf,
         Slab.Glued;
    ghost var d := destination.Contents();
    ghost var bare := AddNode(d, info.(key := NO_STRING));
    ExtendsSelf(d);
    PayloadLive(s, x);
    SourceBefore(source, destination, s);
    AddNodeGrows(d, info.(key := NO_STRING));
    var node := CloneBlank(destination, source, info, s);
    if node.Err? || info.kind != String {
      BareNode(d, s, info);
      return node;
    }
    BareString(d, s, info);
    var fetched := FetchString(destination, source, info.payload.ref, s);
    if fetched.Err? {
      return Err(fetched.error);
    }
    ghost var u := destination.Contents();
    AddStringGrows(bare, PayloadText(s, info));
    ExtendsTransitive(d, bare, u);
    SourceBefore(source, destination, s);
    destination.Counters();
    destination.NodeAt(node.value);
    destination.SetInfo(node.value, destination.nodes[node.value].info.(payload := PString(fetched.value)));
    NodeFilled(d, u, node.value, info.(key := NO_STRING, payload := PString(fetched.value)));
    SourceKept(source, destination, s, d);
    return node;
  }

  lemma BareNode(d: State, s: State, info: Info)
    ensures info.kind != String ==> AddNode(d, info.(key := NO_STRING)) == CloneNode(d, s, info)
  {
  }

  /** The string allocated behind the node is the one the layout has in front of it. */
  lemma BareString(d: State, s: State, info: Info)
    requires info.kind == String
    ensures var bare := AddNode(d, info.(key := NO_STRING));
            var ref := NewRef(bare, PayloadText(s, info));
            var t := AddString(bare, PayloadText(s, info));
            && |bare.cells| == |t.cells| == |d.cells| + 1
            && t.cells[|d.cells|] == Cell(info.(key := NO_STRING), INVALID_ID, [])
            && t.(cells := t.cells[|d.cells| :=
                 t.cells[|d.cells|].(info := info.(key := NO_STRING, payload := PString(ref)))])
               == CloneNode(d, s, info)
  {
    hide View, PayloadText;
    InfoSet(d.cells, info.(key := NO_STRING), CopiedInfo(d, s, info));
  }

  /** The key allocated behind the string likewise. */
  lemma KeyCloned(d: State, s: State, info: Info, key: bytes)
    ensures var t := CloneNode(d, s, info);
            var u := AddString(t, key);
            && |u.cells| == |d.cells| + 1 && u.cells[|d.cells|].info == CopiedInfo(d, s, info)
            && u.(cells := u.cells[|d.cells| :=
                 u.cells[|d.cells|].(info := CopiedInfo(d, s, info).(key := NewRef(t, key)))])
               == Cloned(d, s, info, true, key)
  {
    hide View, PayloadText;
    InfoSet(d.cells, CopiedInfo(d, s, info), CopiedInfo(d, s, info).(key := NewRef(CloneNode(d, s, info), key)));
  }

  lemma NoKeyCloned(d: State, s: State, info: Info)
    ensures CloneNode(d, s, info) == Cloned(d, s, info, false, [])
  {
    hide View, PayloadText;
  }

  lemma CloneNodeRoom(d: State, s: State, info: Info)
    requires info.kind != String ==> PayloadText(s, info) == []
    ensures Remaining(CloneNode(d, s, info)) == Remaining(d) - NODE_BYTES - |PayloadText(s, info)|
  {
    hide View, PayloadText;
  }

  lemma SourceBefore(source: Slab, destination: Slab, s: State)
    requires SourceOf(source, destination, s)
    ensures source.Glued() && Extends(s, source.Contents())
    ensures source == destination || (source.storage != destination.storage && source.nodes != destination.nodes)
  {
  }

  lemma FreshCell(cells: Cells, kind: ValueType)
    ensures |AddCell(cells, FreshInfo(kind))| == |cells| + 1
    ensures AddCell(cells, FreshInfo(kind))[|cells|].info == FreshInfo(kind)
  {
  }

  /** clone_node. */
  method CloneOne(destination: Slab, source: Slab, info: Info, copyKey: bool, ghost s: State, ghost x: nat,
                  ghost key: bytes)
    returns (r: Result<nat>)
    requires destination.Glued() && destination.valid && SourceOf(source, destination, s)
    requires Inv(s) && x < |s.cells| && info == s.cells[x].info
    requires if copyKey then Live(s, info.key) && key == View(s, info.key) else key == []
    modifies destination.Repr()
    ensures destination.Glued() && SourceOf(source, destination, s)
    ensures r.Ok? <==> NODE_BYTES + |PayloadText(s, info)| + |key| <= Remaining(old(destination.Contents()))
    ensures r.Ok? ==> r.value == |old(destination.Contents()).cells|
    ensures r.Ok? ==> destination.Contents() == Cloned(old(destination.Contents()), s, info, copyKey, key)
    ensures Extends(old(destination.Contents()), destination.Contents())
    ensures r.Err? ==> r.error.code in {OutOfMemory, StringCapacityExceeded}
  {
    hide Tail, Shape, Picture, Inv, View, Live, AddString, IsSuffix, SourceOf, PayloadText, CloneNode, Cloned,
         CopiedInfo, NewRef, Extends;
    ghost var d := destination.Contents();
    PayloadLive(s, x);
    SourceBefore(source, destination, s);
    CloneNodeRoom(d, s, info);
    if info.kind == Invalid {
      return Fail(InvalidHandle);
    }
    var node := CloneBare(destination, source, info, s, x);
    if node.Err? {
      return node;
    }
    var id := node.value;
    ghost var t := destination.Contents();
    if copyKey {
      var fetched := FetchString(destination, source, info.key, s);
      if fetched.Err? {
        return Err(fetched.error);
      }
      ghost var u := destination.Contents();
      AddStringGrows(t, key);
      ExtendsTransitive(d, t, u);
      KeyCloned(d, s, info, key);
      destination.Counters();
      destination.NodeAt(id);
      SourceBefore(source, destination, s);
      destination.SetInfo(id, destination.nodes[id].info.(key := fetched.value));
      NodeFilled(d, u, id, CopiedInfo(d, s, info).(key := fetched.value));
      SourceKept(source, destination, s, d);
    } else {
      NoKeyCloned(d, s, info);
    }
    return Ok(id);
  }

  lemma PayloadLive(s: State, x: nat)
    requires Inv(s) && x < |s.cells|
    ensures s.cells[x].info.kind != Invalid
    ensures s.cells[x].info.kind == String ==> s.cells[x].info.payload.PString? && Live(s, s.cells[x].info.payload.ref)
    ensures s.cells[x].info.kind == String ==> PayloadText(s, s.cells[x].info) == View(s, s.cells[x].info.payload.ref)
    ensures s.cells[x].info.kind != String ==> PayloadText(s, s.cells[x].info) == []
  {
    hide IsForest, KeysOk, Disjoint, View, Live, Utf8.Valid, Text.Flags;
    assert InfoOk(s, s.cells[x].info);
  }

  // ---------- linking copies ----------

  /** `c` is a root that may become a child of `p`. */
  ghost predicate MayLink(cells: Cells, p: nat, c: nat) {
    IsForest(cells) && p < |cells| && c < |cells| && p != c && cells[c].parent == INVALID_ID
        && IsContainer(cells[p].info.kind)
  }

  /** What linking writes, the child keeping the key it has. */
  lemma LinkPicture(cells: Cells, p: nat, c: nat)
    requires MayLink(cells, p, c)
    ensures var r, kids := Attach(cells, p, c, cells[c].info.key, cells[c].info.keyFlags), cells[p].kids;
            && Shape(r)
            && NodeOf(r, c) == NodeOf(cells, c).(parent := p)
            && NodeOf(r, p) == NodeOf(cells, p).(firstChild := if kids == [] then c else First(kids), lastChild := c)
            && (kids != [] ==> Last(kids) < |cells| && Last(kids) != p && Last(kids) != c
                               && NodeOf(r, Last(kids)) == NodeOf(cells, Last(kids)).(nextSibling := c))
            && forall i :: 0 <= i < |cells| && i != p && i != c && i != Last(kids) ==> NodeOf(r, i) == NodeOf(cells, i)
  {
    hide Attach, Next, KidsOk, KidsDistinct, ParentsOk;
    AttachPicture(cells, p, c, cells[c].info.key, cells[c].info.keyFlags);
    AttachShape(cells, p, c, cells[c].info.key, cells[c].info.keyFlags);
    DetachedNext(cells, c);
  }

  /** link_first_child. */
  method LinkFirstChild(slab: Slab, p: nat, c: nat)
    requires slab.Glued() && MayLink(slab.cells, p, c) && slab.cells[p].kids == []
    modifies slab`cells, slab.nodes
    ensures slab.Glued()
    ensures slab.Contents() ==
        AttachTo(old(slab.Contents()), p, c, old(slab.cells)[c].info.key, old(slab.cells)[c].info.keyFlags)
  {
    hide Tail, Picture, Shape, IsForest, Attach, Next;
    ghost var cells := slab.cells;
    ghost var linked := Attach(cells, p, c, cells[c].info.key, cells[c].info.keyFlags);
    LinkPicture(cells, p, c);
    slab.NodeAt(p);
    slab.NodeAt(c);
    ghost var before := slab.nodes[..slab.nodeCount];
    slab.nodes[p] := slab.nodes[p].(firstChild := c, lastChild := c);
    slab.nodes[c] := slab.nodes[c].(parent := p);
    forall i | 0 <= i < slab.nodeCount
      ensures slab.nodes[i] == NodeOf(linked, i)
    {
      assert before[i] == Picture(cells)[i];
      PictureAt(cells, i);
    }
    slab.cells := linked;
    PictureFrom(slab.nodes[..slab.nodeCount], slab.cells);
  }

  /** link_next_sibling. */
  method LinkNextSibling(slab: Slab, previous: nat, p: nat, c: nat)
    requires slab.Glued() && MayLink(slab.cells, p, c) && slab.cells[p].kids != []
    requires previous == Last(slab.cells[p].kids)
    modifies slab`cells, slab.nodes
    ensures slab.Glued()
    ensures slab.Contents() ==
        AttachTo(old(slab.Contents()), p, c, old(slab.cells)[c].info.key, old(slab.cells)[c].info.keyFlags)
  {
    hide Tail, Picture, Shape, IsForest, Attach, Next;
    ghost var cells := slab.cells;
    ghost var linked := Attach(cells, p, c, cells[c].info.key, cells[c].info.keyFlags);
    LinkPicture(cells, p, c);
    slab.NodeAt(p);
    slab.NodeAt(c);
    slab.NodeAt(previous);
    ghost var before := slab.nodes[..slab.nodeCount];
    slab.nodes[previous] := slab.nodes[previous].(nextSibling := c);
    slab.nodes[p] := slab.nodes[p].(lastChild := c);
    slab.nodes[c] := slab.nodes[c].(parent := p);
    forall i | 0 <= i < slab.nodeCount
      ensures slab.nodes[i] == NodeOf(linked, i)
    {
      assert before[i] == Picture(cells)[i];
      PictureAt(cells, i);
    }
    slab.cells := linked;
    PictureFrom(slab.nodes[..slab.nodeCount], slab.cells);
  }

  /** A copy of `c`, linked below `q` under its key, is what the layout has there. */
  lemma ClonedLinks(t: State, s: State, p: nat, c: nat, q: nat)
    requires Inv(t) && Inv(s) && p < |s.cells| && c < |s.cells| && s.cells[c].parent == p
    requires q < |t.cells| && IsContainer(t.cells[q].info.kind)
    ensures var o, key, info := s.cells[p].info.kind == Object, KeyOf(s, p, c), s.cells[c].info;
            var u := Cloned(t, s, info, o, key);
            && |u.cells| == |t.cells| + 1 && u.cells[q].kids == t.cells[q].kids
            && (|t.cells| + 1 < INVALID_ID ==> MayLink(u.cells, q, |t.cells|))
            && AttachTo(u, q, |t.cells|, u.cells[|t.cells|].info.key, u.cells[|t.cells|].info.keyFlags) ==
                CloneKid(t, s, p, c, q)
  {
    hide InfosOk, KeysOk, Disjoint, CountersOk, View, PayloadText, Shape, Acyclic, KeyOf, KeyRef, NewRef;
    var o, key, info := s.cells[p].info.kind == Object, KeyOf(s, p, c), s.cells[c].info;
    var u, v := Cloned(t, s, info, o, key), PlantKey(CloneNode(t, s, info), o, key);
    var n := |t.cells|;
    if n + 1 < INVALID_ID {
      AddCellForest(t.cells, u.cells[n].info);
    }
    SameKeyAttach(u.cells, v.cells, q, n, u.cells[n].info.key, info.keyFlags);
  }

  /** Linking overwrites the key, so that it does not matter what it was. */
  lemma SameKeyAttach(a: Cells, b: Cells, p: nat, c: nat, key: StringRef, keyFlags: nat)
    requires |a| == |b| && p < |a| && c < |a| && p != c
    requires forall i :: 0 <= i < |a| && i != c ==> a[i] == b[i]
    requires a[c] == b[c].(info := b[c].info.(key := key)) && b[c].info.keyFlags == keyFlags
    ensures Attach(a, p, c, key, keyFlags) == Attach(b, p, c, key, keyFlags)
  {
    var x, y := Attach(a, p, c, key, keyFlags), Attach(b, p, c, key, keyFlags);
    assert forall i :: 0 <= i < |a| ==> x[i] == y[i];
  }

  // ---------- the cloner's walk ----------

  /** Reading the source, which may have grown since copying began. */
  lemma SourceNode(source: Slab, destination: Slab, s: State, p: nat, k: nat)
    requires SourceOf(source, destination, s) && Inv(s) && p < |s.cells|
    ensures p < source.nodes.Length && source.nodes[p].info == s.cells[p].info
    ensures source.nodes[p].parent == s.cells[p].parent
    ensures source.nodes[p].firstChild == KidAt(s.cells[p].kids, 0)
    ensures k < |s.cells[p].kids| ==>
      var c := s.cells[p].kids[k];
      && c < |s.cells| && c < source.nodes.Length && s.cells[c].parent == p
      && source.nodes[c].info == s.cells[c].info && source.nodes[c].parent == p
      && source.nodes[c].nextSibling == KidAt(s.cells[p].kids, k + 1)
  {
    hide Tail, Picture, Acyclic, InfosOk, KeysOk, Disjoint, Next, IsSuffix;
    source.Counters();
    assert source.cells[p] == s.cells[p];
    source.SiblingAt(p, k);
    source.NodeAt(p);
    if k < |s.cells[p].kids| {
      KidValid(s, p, k);
      assert source.cells[s.cells[p].kids[k]] == s.cells[s.cells[p].kids[k]];
    }
  }

  /** What the cloner's walk keeps: the copy may still be taken back, and the source can be read. */
  ghost predicate Walking(destination: Slab, source: Slab, s: State, d: State)
    reads source, source.storage, source.nodes, destination, destination.storage, destination.nodes
  {
    && destination.Valid() && destination.valid && SourceOf(source, destination, s) && Inv(d) && Inv(s)
    && Extends(d, destination.Contents()) && (source == destination ==> Extends(s, d))
  }

  /** A child is cloned and linked as first child, or as next sibling of `previous`. */
  method CopyLinked(destination: Slab, source: Slab, p: nat, c: nat, q: nat, first: bool, previous: nat,
                    ghost s: State, ghost d: State, ghost root: nat, ghost k: nat, ghost depth: nat, ghost done: State)
    returns (r: Result<nat>)
    requires Walking(destination, source, s, d)
    requires p < |s.cells| && k < |s.cells[p].kids| && s.cells[p].kids[k] == c && root < |s.cells|
    requires Climb(s.cells, p, depth) == root
    requires |d.cells| <= q < |destination.cells| && Spine(destination.cells, q, s.cells, p, depth)
    requires RestClone(CloneKids(destination.Contents(), s, p, q, k), s, p, q, depth) == done
    requires if first then destination.cells[q].kids == []
             else destination.cells[q].kids != [] && Last(destination.cells[q].kids) == previous
    modifies destination.Repr()
    ensures r.Ok? ==> Walking(destination, source, s, d)
    ensures r.Ok? ==> r.value == old(destination.nodeCount) < destination.nodeCount && r.value >= |d.cells|
    ensures r.Ok? ==> CopyFacing(destination.Contents(), s, root, c, r.value, depth + 1, done)
    ensures r.Err? ==>
      && destination.Glued()
      && Extends(d, destination.Contents())
      && r.error.code in {OutOfMemory, StringCapacityExceeded}
    ensures r.Err? ==> UsedBytes(done) > d.capacity == done.capacity
  {
    hide Tail, Shape, Acyclic, Picture, Inv, View, Live, IsSuffix, Spine, RestClone, CloneKids, CloneKid, Cloned,
         PayloadText, KeyOf, CopyFacing,
         MayLink, IsForest, Extends, Slab.Glued, SourceOf;
    ghost var t := destination.Contents();
    destination.Counters();
    SourceNode(source, destination, s, p, k);
    var info, copyKey := source.nodes[c].info, source.nodes[p].info.kind == Object;
    ghost var key := KeyOf(s, p, c);
    KeyToCopy(s, p, c);
    CopyPlace(t, s, p, k, q, depth);
    CopyChild(t, s, root, p, k, q, depth, done);
    SourceBefore(source, destination, s);
    var node := CloneOne(destination, source, info, copyKey, s, c, key);
    if node.Err? {
      ExtendsTransitive(d, t, destination.Contents());
      ExtendsSame(d, t);
      return node;
    }
    var id := node.value;
    destination.Counters();
    SourceBefore(source, destination, s);
    ClonedLinks(t, s, p, c, q);
    if first {
      LinkFirstChild(destination, q, id);
    } else {
      LinkNextSibling(destination, previous, q, id);
    }
    destination.Counters();
    GrowsExtends(d, t, destination.Contents(), q);
    SourceKept(source, destination, s, d);
    return Ok(id);
  }

  lemma KeyToCopy(s: State, p: nat, c: nat)
    requires Inv(s) && p < |s.cells| && c < |s.cells| && s.cells[c].parent == p
    ensures if s.cells[p].info.kind == Object then
        Live(s, s.cells[c].info.key) && KeyOf(s, p, c) == View(s, s.cells[c].info.key)
            else KeyOf(s, p, c) == []
  {
    hide IsForest, InfosOk, Disjoint, Utf8.Valid, Text.Flags, View, Live;
    assert KeyOk(s, s.cells[c]);
  }

  lemma CopyPlace(t: State, s: State, p: nat, k: nat, q: nat, depth: nat)
    requires Inv(s) && p < |s.cells| && k < |s.cells[p].kids| && Spine(t.cells, q, s.cells, p, depth)
    ensures q < |t.cells| && IsContainer(t.cells[q].info.kind) && t.cells[q].info.kind == s.cells[p].info.kind
  {
    hide Inv;
    InvForest(s);
    HasKids(s, p, k);
  }

  lemma ExtendsSame(d: State, t: State)
    requires Extends(d, t)
    ensures t.capacity == d.capacity && t.generation == d.generation && t.valid == d.valid && t.error == d.error
  {
  }

  /** Where the cloner goes when everything below a node is copied. */
  datatype Spot = Complete | Spot(sourceId: nat, destinationId: nat)

  lemma KidEnd(s: State, p: nat, k: nat)
    requires Inv(s) && p < |s.cells| && k < |s.cells[p].kids|
    ensures KidAt(s.cells[p].kids, k + 1) == INVALID_ID <==> k + 1 == |s.cells[p].kids|
  {
    Containers.InForest(s, p, k + 1);
  }

  /** The inner loop of duplicate: up on both sides until the source has a next sibling, or its root is reached. */
  method CopyAdvance(destination: Slab, source: Slab, root: nat, sourceId: nat, destinationId: nat,
                     ghost s: State, ghost d: State, ghost level: nat, ghost done: State)
    returns (r: Result<Spot>, ghost depth: nat)
    requires Walking(destination, source, s, d) && |d.cells| <= destinationId
    requires CopyBehind(destination.Contents(), s, root, sourceId, destinationId, level, done)
    modifies destination.Repr()
    ensures r.Ok? ==> Walking(destination, source, s, d)
    ensures r.Ok? && r.value.Complete? ==> destination.Contents() == done
    ensures r.Ok? && r.value.Spot? ==>
      && |d.cells| <= r.value.destinationId && old(destination.nodeCount) < destination.nodeCount
      && CopyFacing(destination.Contents(), s, root, r.value.sourceId, r.value.destinationId, depth, done)
    ensures r.Err? ==>
      && destination.Glued()
      && Extends(d, destination.Contents())
      && r.error.code in {OutOfMemory, StringCapacityExceeded}
    ensures r.Err? ==> UsedBytes(done) > d.capacity == done.capacity
  {
    hide Tail, Shape, Acyclic, Picture, Inv, Spine, RestClone, CloneKids, CopyFacing, CopyBehind, IsForest, Extends,
         Slab.Glued, SourceOf;
    depth := level;
    var x, y := sourceId, destinationId;
    destination.Counters();
    ghost var t := destination.Contents();
    while true
      invariant Walking(destination, source, s, d) && |d.cells| <= y
      invariant destination.Contents() == t && destination.nodeCount == old(destination.nodeCount)
      invariant CopyBehind(t, s, root, x, y, depth, done)
      decreases depth
    {
      CopyEnd(t, s, root, x, y, depth, done);
      if x == root {
        return Ok(Complete), depth;
      }
      destination.Counters();
      destination.NodeAt(y);
      SourceNode(source, destination, s, x, 0);
      var p, q := source.nodes[x].parent, destination.nodes[y].parent;
      ghost var k := IndexOf(s.cells[p].kids, x);
      CopyOn(t, s, root, p, k, x, y, depth, done);
      CopyOnIds(t, s, d, y, p);
      if p == INVALID_ID || q == INVALID_ID {
        return Fail(InternalError), depth;
      }
      SourceNode(source, destination, s, p, k);
      KidEnd(s, p, k);
      var sibling := source.nodes[x].nextSibling;
      if sibling != INVALID_ID {
        var copied := CopyLinked(destination, source, p, sibling, q, false, y, s, d, root, k + 1, depth - 1, done);
        if copied.Err? {
          return Err(copied.error), depth;
        }
        return Ok(Spot(sibling, copied.value)), depth;
      }
      x, y, depth := p, q, depth - 1;
    }
  }

  lemma CopyOnIds(t: State, s: State, d: State, y: nat, p: nat)
    requires Inv(t) && Inv(d) && Inv(s) && Extends(d, t) && |d.cells| <= y < |t.cells|
    requires t.cells[y].parent < |t.cells| && p < |s.cells|
    ensures |d.cells| <= t.cells[y].parent && t.cells[y].parent != INVALID_ID && p != INVALID_ID
  {
    hide Acyclic, InfosOk, KeysOk, Disjoint, IsSuffix;
    ParentNew(d, t, y);
  }

  // ---------- deep copy ----------

  /** The value a copy is to have, and the state it ends in. */
  ghost function CopiedValue(s: State, x: nat, recurse: bool): Json
    requires IsForest(s.cells) && x < |s.cells|
  {
    if recurse then Denote(s, x) else Shallow(s, x)
  }

  ghost function CopiedState(d: State, s: State, x: nat, recurse: bool): State
    requires IsForest(s.cells) && x < |s.cells|
  {
    if recurse then CloneTree(d, s, x) else CloneNode(d, s, s.cells[x].info)
  }

  /** What duplicate does: the copy is planted, or nothing changes; and it succeeds exactly if the copy fits. */
  ghost predicate Duplicated(d: State, s: State, h: Handle, recurse: bool, t: State, r: Result<nat>)
    requires IsForest(s.cells)
  {
    if !d.valid then r == Fail(InvalidArgument) && t == d
    else if !LiveHandle(s, h) then r == Fail(InvalidHandle) && t == d
    else
      && (r.Ok? <==> Footprint(CopiedValue(s, h.id, recurse)) <= Remaining(d))
      && (r.Ok? ==> r.value == |d.cells| && t == CopiedState(d, s, h.id, recurse))
      && (r.Ok? ==> Planted(d, t, CopiedValue(s, h.id, recurse)))
      && (r.Err? ==> t == d && r.error.code in {OutOfMemory, StringCapacityExceeded})
  }

  /** The copy of the root alone, and the copy of everything if there is nothing below it. */
  lemma RootCopied(d: State, s: State, x: nat, recurse: bool)
    requires Inv(d) && Inv(s) && x < |s.cells|
    ensures Footprint(Shallow(s, x)) == NODE_BYTES + |PayloadText(s, s.cells[x].info)|
    ensures Footprint(Denote(s, x)) >= Footprint(Shallow(s, x))
    ensures recurse ==>
      CopiedValue(s, x, recurse) == Denote(s, x) && CopiedState(d, s, x, recurse) == CloneTree(d, s, x)
    ensures !IsContainer(s.cells[x].info.kind) || !recurse ==>
      && CopiedValue(s, x, recurse) == Shallow(s, x)
      && CopiedState(d, s, x, recurse) == CloneNode(d, s, s.cells[x].info)
    ensures Footprint(Shallow(s, x)) <= Remaining(d) ==>
      Planted(d, CloneNode(d, s, s.cells[x].info), Shallow(s, x))
  {
    hide Inv, Shape, Acyclic, Members, CloneNode, View, Planted, PayloadText, Shallow;
    ShallowSize(s, x);
    InvForest(s);
    DenoteFromShallow(s, x);
    if !IsContainer(s.cells[x].info.kind) {
      CloneChildless(CloneNode(d, s, s.cells[x].info), s, x, |d.cells|);
    }
    if Footprint(Shallow(s, x)) <= Remaining(d) {
      CloneNodeRight(d, s, x);
    }
  }

  /** The recursive copy of a container, from its root on. */
  lemma TreeStart(d: State, s: State, x: nat)
    requires Inv(d) && Inv(s) && x < |s.cells| && Footprint(Shallow(s, x)) <= Remaining(d)
    ensures var t := CloneNode(d, s, s.cells[x].info);
            Inv(t) && Extends(d, t) && CopyFacing(t, s, x, x, |d.cells|, 0, CloneTree(d, s, x))
    ensures CloneTree(d, s, x).capacity == d.capacity
    ensures UsedBytes(CloneTree(d, s, x)) == UsedBytes(d) + Footprint(Denote(s, x))
  {
    hide Inv, Shape, Acyclic, Members, View, CloneKids, Denote, Shallow, IsSuffix, FreshRefs;
    InvForest(s);
    CloneTreeSize(d, s, x);
    CloneNodeRight(d, s, x);
    CopyStart(CloneNode(d, s, s.cells[x].info), s, x, CloneTree(d, s, x));
  }

  lemma TreeDone(d: State, s: State, x: nat)
    requires Inv(d) && Inv(s) && x < |s.cells| && Inv(CloneTree(d, s, x))
    requires CloneTree(d, s, x).capacity == d.capacity
    requires UsedBytes(CloneTree(d, s, x)) == UsedBytes(d) + Footprint(Denote(s, x))
    ensures Footprint(Denote(s, x)) <= Remaining(d) && Planted(d, CloneTree(d, s, x), Denote(s, x))
  {
    hide IsForest, InfosOk, KeysOk, Disjoint, CloneTree, Planted, Denote;
    CloneTreeRight(d, s, x);
  }

  /** The loop of duplicate, with the root copied. */
  method CopyBelow(destination: Slab, source: Slab, root: nat, rootCopy: nat, ghost s: State, ghost d: State,
                   ghost done: State) returns (r: Result<()>)
    requires Walking(destination, source, s, d) && |d.cells| <= rootCopy
    requires CopyFacing(destination.Contents(), s, root, root, rootCopy, 0, done)
    modifies destination.Repr()
    ensures r.Ok? ==> destination.Valid() && destination.Contents() == done
    ensures r.Err? ==>
      && destination.Glued()
      && Extends(d, destination.Contents())
      && r.error.code in {OutOfMemory, StringCapacityExceeded}
    ensures r.Err? ==> UsedBytes(done) > d.capacity == done.capacity
  {
    hide Tail, Shape, Acyclic, Picture, Inv, Spine, RestClone, CloneKids, CopyFacing, CopyBehind, IsForest, Extends,
         Slab.Glued, SourceOf;
    var x, y := root, rootCopy;
    ghost var depth: nat := 0;
    destination.Counters();
    while true
      invariant Walking(destination, source, s, d) && |d.cells| <= y
      invariant destination.nodeCount <= destination.storage.Length
      invariant CopyFacing(destination.Contents(), s, root, x, y, depth, done)
      decreases destination.storage.Length - destination.nodeCount
    {
      ghost var t := destination.Contents();
      destination.Counters();
      CopyFacingFacts(t, s, root, x, y, depth, done);
      SourceNode(source, destination, s, x, 0);
      FirstEnd(s, x);
      var first := source.nodes[x].firstChild;
      if first != INVALID_ID {
        var child := CopyLinked(destination, source, x, first, y, true, INVALID_ID, s, d, root, 0, depth, done);
        if child.Err? {
          return Err(child.error);
        }
        x, y, depth := first, child.value, depth + 1;
        destination.Counters();
        continue;
      }
      CopyLeaf(t, s, root, x, y, depth, done);
      var spot, at := CopyAdvance(destination, source, root, x, y, s, d, depth, done);
      if spot.Err? {
        return Err(spot.error);
      }
      if spot.value.Complete? {
        return Ok(());
      }
      x, y, depth := spot.value.sourceId, spot.value.destinationId, at;
      destination.Counters();
    }
  }

  lemma FirstEnd(s: State, x: nat)
    requires Inv(s) && x < |s.cells|
    ensures KidAt(s.cells[x].kids, 0) == INVALID_ID <==> s.cells[x].kids == []
  {
    Containers.InForest(s, x, 0);
  }

  /** duplicate. The source may live in the destination slab; two different slabs share no memory. */
  method Duplicate(destination: Slab, source: Value, recurse: bool) returns (r: Result<Value>)
    requires destination.Valid()
    requires source.slab != null ==>
      source.slab.Valid() && (source.slab == destination ||
        (source.slab.storage != destination.storage && source.slab.nodes != destination.nodes))
    modifies destination.Repr()
    ensures destination.Valid()
    ensures source.slab == null ==> r == Fail(InvalidHandle) && destination.Contents() == old(destination.Contents())
    ensures source.slab != null ==>
      Duplicated(old(destination.Contents()), old(source.slab.Contents()), HandleOf(source), recurse,
          destination.Contents(), IdOf(r))
    ensures r.Ok? ==> r.value.slab == destination && r.value.generation == destination.generation
  {
    hide Tail, Shape, Acyclic, Picture, Inv, CopyFacing, Extends, Slab.Glued, SourceOf, CopiedValue, CopiedState,
         Planted, Footprint, Cloned, CountersOk;
    if source.slab == null {
      return Fail(InvalidHandle);
    }
    var from := source.slab;
    ghost var d, s := destination.Contents(), from.Contents();
    InvForest(s);
    InvParts(d);
    destination.Counters();
    from.Counters();
    if !destination.valid {
      return Fail(InvalidArgument);
    }
    if !from.IsLive(source.id, source.generation) {
      return Fail(InvalidHandle);
    }
    from.NodeAt(source.id);
    PayloadLive(s, source.id);
    var info := from.nodes[source.id].info;
    if info.kind == Invalid {
      return Fail(InvalidHandle);
    }
    var checkpoint := destination.Mark();
    SourceItself(from, destination, s, d);
    RootCopied(d, s, source.id, recurse);
    var root := CloneOne(destination, from, info, false, s, source.id, []);
    if root.Err? {
      TakenBack(d, destination.Contents());
      destination.Rollback(checkpoint, d);
      ErrorIrrelevant(d, destination.error);
      return Err(root.error);
    }
    NoKeyCloned(d, s, info);
    if !recurse || !IsContainer(info.kind) {
      PlantedNow(d, destination.Contents(), Shallow(s, source.id));
      return Ok(Value(destination, root.value, destination.generation));
    }
    TreeStart(d, s, source.id);
    var below := CopyBelow(destination, from, source.id, root.value, s, d, CloneTree(d, s, source.id));
    if below.Err? {
      TakenBack(d, destination.Contents());
      destination.Rollback(checkpoint, d);
      ErrorIrrelevant(d, destination.error);
      return Err(below.error);
    }
    TreeDone(d, s, source.id);
    PlantedNow(d, destination.Contents(), Denote(s, source.id));
    return Ok(Value(destination, root.value, destination.generation));
  }

  lemma SourceItself(source: Slab, destination: Slab, s: State, d: State)
    requires source == destination || (source.storage != destination.storage && source.nodes != destination.nodes)
    requires source.Glued() && s == source.Contents() && d == destination.Contents()
    ensures SourceOf(source, destination, s) && Extends(d, d) && (source == destination ==> Extends(s, d))
  {
    ExtendsSelf(s);
    ExtendsSelf(d);
  }

  /** A failed copy can be taken back. */
  lemma TakenBack(d: State, t: State)
    requires Inv(d) && Extends(d, t)
    ensures CountersOk(d) && Shape(d.cells) && t.error == d.error && t.(error := d.error) == t
        && t.generation == d.generation
  {
    hide IsForest, InfosOk, KeysOk, Disjoint, IsSuffix;
    InvParts(d);
  }

  lemma PlantedNow(d: State, t: State, j: Json)
    requires Planted(d, t, j)
    ensures Inv(t) && t.generation == d.generation
  {
    hide Inv, IsSuffix;
  }

  // ---------- printing ----------

  /** print_unformatted and print_pretty: the text and a NUL behind it, or nothing. */
  method PrintTerminated(item: Value, output: array<byte>, f: Text.Format) returns (r: Result<nat>)
    requires item.slab != null ==> item.slab.Valid()
    modifies output
    ensures r.Ok? <==>
      && old(IsLiveValue(item))
      && |old(FullText(item, f))| + 1 <= output.Length
      && output != item.slab.storage
    ensures r.Ok? ==>
      r.value == |old(FullText(item, f))| && Holds(output[..], old(FullText(item, f)) + [0], old(output[..]))
    ensures r.Err? ==> output[..] == old(output[..])
    ensures r.Err? ==> r.error == Error(
      if !old(IsLiveValue(item)) then InvalidHandle
      else if |old(FullText(item, f))| + 1 > output.Length then OutputCapacityExceeded
      else InvalidArgument, 0)
  {
    hide Tail, Shape, Picture, Inv, Text.Print, Denote;
    var size := Measure(item, f);
    if size.Err? {
      return Err(size.error);
    }
    FullTextBound(item, f);
    if size.value == SIZE_MAX || output.Length <= size.value {
      return Fail(OutputCapacityExceeded);
    }
    ghost var full := FullText(item, f);
    r := SerializePartial(item, output, size.value + 1, f);
    if r.Err? {
      return r;
    }
    output[r.value] := 0;
  }
}

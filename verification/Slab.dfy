/** The two-ended allocator: nodes from the front, string bytes from the back, and the links between nodes. */
module Slabs {
  import opened Base
  import opened Json
  import opened Forest
  import opened Links
  import opened Dom
  import opened Ops
  import opened Build
  import opened Spec
  import Text
  import Utf8

  /** A value handle. The default-constructed one has no slab. */
  datatype Value = Value(slab: Slab?, id: nat, generation: nat)

  /** Slab::Checkpoint. */
  datatype Checkpoint = Checkpoint(stringBytesUsed: nat, nodeCount: nat)

  const BLANK: Node := Node(FreshInfo(Null), INVALID_ID, INVALID_ID, INVALID_ID, INVALID_ID)

  /** An upper bound of all ranks, for walks towards the root. */
  ghost function MaxRank(rank: seq<nat>): (m: nat)
    ensures forall i :: 0 <= i < |rank| ==> rank[i] <= m
  {
    if rank == [] then 0
    else
      var m := MaxRank(rank[..|rank| - 1]);
      if m < rank[|rank| - 1] then rank[|rank| - 1] else m
  }

  class Slab {
    const storage: array<byte>
    const nodes: array<Node>
    const valid: bool
    var stringBytesUsed: nat
    var nodeCount: nat
    var generation: nat
    var error: Error
    /** The forest the nodes stand for. */
    ghost var cells: Cells

    ghost function Repr(): set<object> {
      {this, storage, nodes}
    }

    /** The slab's contents as a value; what lies between the two ends is not part of it. */
    ghost function Contents(): State
      reads this, storage
    {
      var heap := if stringBytesUsed <= storage.Length then Tail(storage[..], stringBytesUsed) else [];
      State(valid, storage.Length, cells, heap, generation, error)
    }

    /** What the counters count. */
    lemma Counters()
      requires Glued()
      ensures |cells| == nodeCount && |Contents().heap| == stringBytesUsed && Contents().cells == cells
      ensures Contents().valid == valid && Contents().generation == generation && Contents().error == error
      ensures Contents().capacity == storage.Length
      ensures 24 * nodeCount + stringBytesUsed <= storage.Length <= MAX_STORAGE && nodes.Length == storage.Length / 24
    {
    }

    /** Counters within bounds, and the node array the picture of the forest. */
    ghost predicate Glued()
      reads this, storage, nodes
    {
      && nodes.Length == storage.Length / 24
      && 24 * nodeCount + stringBytesUsed <= storage.Length <= MAX_STORAGE
      && (if valid then NODE_BYTES <= storage.Length else storage.Length == 0)
      && 1 <= generation < 0x1_0000_0000
      && |cells| == nodeCount
      && nodes[..nodeCount] == Picture(cells)
      && Shape(cells)
    }

    ghost predicate Valid()
      reads this, storage, nodes
    {
      Glued() && Inv(Contents())
    }

    /** A slab over `available` aligned bytes; unusable when not even one node fits. */
    constructor (available: nat)
      ensures Valid() && fresh(Repr())
      ensures var capacity := if available < NODE_BYTES then 0 else if available < MAX_STORAGE then available
          else MAX_STORAGE;
              Contents() == State(available >= NODE_BYTES, capacity, [], [], 1, NO_ERROR)
    {
      var capacity := if available < NODE_BYTES then 0 else if available < MAX_STORAGE then available else MAX_STORAGE;
      storage := new byte[capacity](_ => 0);
      nodes := new Node[capacity / 24](_ => BLANK);
      valid := available >= NODE_BYTES;
      stringBytesUsed, nodeCount, generation, error := 0, 0, 1, NO_ERROR;
      cells := [];
      new;
      TailNone(storage[..]);
      EmptyInv(Contents());
    }

    method Status() returns (r: Result<()>)
      ensures r == if error.code != NoError then Err(error) else Ok(())
    {
      if error.code != NoError {
        return Err(error);
      }
      return Ok(());
    }

    method ClearError()
      requires Glued()
      modifies this`error
      ensures Glued() && Contents() == old(Contents()).(error := NO_ERROR)
      ensures old(Valid()) ==> Valid()
    {
      hide Tail, Inv, Shape, Picture;
      error := NO_ERROR;
      ErrorIrrelevant(old(Contents()), NO_ERROR);
    }

    /** Forgets all nodes and strings and starts a new generation; 0 is never one. */
    method Reset()
      requires Glued()
      modifies this
      ensures Valid()
      ensures Contents() == State(valid, storage.Length, [], [], NextGeneration(old(generation)), NO_ERROR)
    {
      hide Tail, Inv, Shape, Picture;
      stringBytesUsed := 0;
      nodeCount := 0;
      error := NO_ERROR;
      cells := [];
      generation := (generation + 1) % 0x1_0000_0000;
      if generation == 0 {
        generation := 1;
      }
      TailNone(storage[..]);
      EmptyInv(Contents());
    }

    method UsedBytesNow() returns (n: nat)
      requires Glued()
      ensures n == UsedBytes(Contents())
    {
      hide Tail, Shape, Picture;
      n := nodeCount * 24 + stringBytesUsed;
    }

    method RemainingBytes() returns (n: nat)
      requires Glued()
      ensures n == Remaining(Contents())
    {
      hide Tail, Shape, Picture;
      var used := UsedBytesNow();
      n := storage.Length - used;
    }

    /** node_for: whether a handle of this slab is live. */
    predicate IsLive(id: nat, gen: nat)
      reads this
    {
      valid && gen == generation && id < nodeCount
    }

    // ---------- allocation ----------

    predicate CanAllocateNode()
      reads this
    {
      valid && (nodeCount + 1) * 24 <= storage.Length - stringBytesUsed
    }

    method AllocateNode(kind: ValueType) returns (r: Result<nat>)
      requires Glued()
      modifies this, nodes
      ensures Glued()
      ensures r.Ok? <==> valid && NODE_BYTES <= Remaining(old(Contents()))
      ensures r.Ok? ==> r.value == old(nodeCount) && Contents() == AddNode(old(Contents()), FreshInfo(kind))
      ensures r.Err? ==>
        Contents() == old(Contents()) && r.error == Error(if valid then OutOfMemory else InvalidArgument, 0)
    {
      hide Tail, Shape, Picture, Inv, Next;
      if !valid {
        return Fail(InvalidArgument);
      }
      if !CanAllocateNode() {
        return Fail(OutOfMemory);
      }
      var id := nodeCount;
      AddPicture(cells, FreshInfo(kind));
      AddShape(cells, FreshInfo(kind));
      nodes[id] := Node(FreshInfo(kind), INVALID_ID, INVALID_ID, INVALID_ID, INVALID_ID);
      nodeCount := nodeCount + 1;
      cells := AddCell(cells, FreshInfo(kind));
      assert nodes[..nodeCount] == nodes[..id] + [nodes[id]];
      return Ok(id);
    }

    /** Overwrites the contents of a node, not its links. */
    method SetInfo(id: nat, info: Info)
      requires Glued() && id < nodeCount
      requires IsContainer(info.kind) || !IsContainer(cells[id].info.kind)
      modifies this`cells, nodes
      ensures Glued()
      ensures Contents() == old(Contents()).(cells := old(cells)[id := old(cells)[id].(info := info)])
    {
      hide Tail, Shape, Picture, Inv, Next;
      InfoPicture(cells, id, info);
      InfoShape(cells, id, info);
      PictureAt(cells, id);
      assert nodes[id] == nodes[..nodeCount][id];
      nodes[id] := nodes[id].(info := info);
      cells := cells[id := cells[id].(info := info)];
      assert nodes[..nodeCount] == old(nodes[..nodeCount])[id := nodes[id]];
    }

    method AllocateString(length: nat) returns (r: Result<StringRef>)
      requires Glued()
      modifies this`stringBytesUsed
      ensures Glued()
      ensures r.Ok? <==> valid && length <= Remaining(old(Contents()))
      ensures r.Ok? ==>
        && stringBytesUsed == old(stringBytesUsed) + length
        && r.value == StringRef(storage.Length - stringBytesUsed, length)
        && 0 <= r.value.offset < 0x1_0000
      ensures r.Err? ==> stringBytesUsed == old(stringBytesUsed)
      ensures r.Err? ==> r.error == Error(if valid then StringCapacityExceeded else InvalidArgument, 0)
    {
      hide Tail, Shape, Picture, Inv;
      if !valid {
        return Fail(InvalidArgument);
      }
      if length > 65535 {
        return Fail(StringCapacityExceeded);
      }
      if length > storage.Length - stringBytesUsed - nodeCount * 24 {
        return Fail(StringCapacityExceeded);
      }
      var offset := storage.Length - stringBytesUsed - length;
      stringBytesUsed := stringBytesUsed + length;
      return Ok(StringRef(offset, length));
    }

    /** copy_string_trusted: the bytes in front of all earlier strings. */
    method CopyString(value: bytes) returns (r: Result<StringRef>)
      requires Glued()
      modifies this`stringBytesUsed, storage
      ensures Glued()
      ensures r.Ok? <==> valid && |value| <= Remaining(old(Contents()))
      ensures r.Ok? ==> r.value == NewRef(old(Contents()), value) && Contents() == AddString(old(Contents()), value)
      ensures r.Err? ==> Contents() == old(Contents())
      ensures r.Err? ==> r.error == Error(if valid then StringCapacityExceeded else InvalidArgument, 0)
    {
      hide Tail, Shape, Picture, Inv, IsSuffix;
      r := AllocateString(|value|);
      if r.Ok? {
        var offset := r.value.offset;
        forall i | 0 <= i < |value| {
          storage[offset + i] := value[i];
        }
        TailGrows(old(storage[..]), storage[..], old(stringBytesUsed), value);
      }
    }

    /** string_flags: 1 when some byte must be escaped. */
    static method StringFlags(value: bytes) returns (flags: nat)
      ensures flags == Text.Flags(value)
    {
      for i := 0 to |value|
        invariant forall k :: 0 <= k < i ==> !Text.NeedsEscape(value[k])
      {
        var b := value[i];
        if b == Text.QUOTE || b == Text.BACKSLASH || b < 0x20 {
          assert b in value && Text.NeedsEscape(b);
          return 1;
        }
      }
      return 0;
    }

    /** store_string_with_flags. */
    method StoreString(value: bytes) returns (r: Result<(StringRef, nat)>)
      requires Glued()
      modifies this`stringBytesUsed, storage
      ensures Glued()
      ensures r.Ok? <==> valid && Utf8.Valid(value) && |value| <= Remaining(old(Contents()))
      ensures r.Ok? ==> r.value.0 == NewRef(old(Contents()), value) && r.value.1 == Text.Flags(value)
      ensures r.Ok? ==> Contents() == AddString(old(Contents()), value)
      ensures r.Err? ==> Contents() == old(Contents())
      ensures r.Err? ==> r.error.code == StoreError(valid, value)
    {
      hide Tail, Shape, Picture, Inv, Glued, AddString, Text.Flags, Utf8.Valid, Utf8.IsOctets;
      var invalid := Utf8.InvalidOffset(value);
      if invalid.Some? {
        return Err(Error(InvalidUtf8, invalid.value));
      }
      var copied := CopyString(value);
      if copied.Err? {
        return Err(copied.error);
      }
      var flags := StringFlags(value);
      return Ok((copied.value, flags));
    }

    // ---------- making values ----------

    /** A new root with the given contents; the node is allocated blank and then filled in. */
    method MakeNode(info: Info) returns (r: Result<Value>)
      requires Glued()
      modifies this, nodes
      ensures Glued()
      ensures r.Ok? <==> valid && NODE_BYTES <= Remaining(old(Contents()))
      ensures r.Ok? ==> r.value == Value(this, old(nodeCount), generation)
      ensures r.Ok? ==> Contents() == AddNode(old(Contents()), info)
      ensures r.Err? ==>
        Contents() == old(Contents()) && r.error == Error(if valid then OutOfMemory else InvalidArgument, 0)
    {
      hide Tail, Shape, Picture, Inv;
      var id := AllocateNode(info.kind);
      if id.Err? {
        return Err(id.error);
      }
      SetInfo(id.value, info);
      return Ok(Value(this, id.value, generation));
    }

    /** make_null, make_bool and the integral make_number. */
    method MakeScalar(j: Json) returns (r: Result<Value>)
      requires Valid() && !j.JString? && !j.JContainer? && !j.JFloat? && Storable(j)
      modifies this, nodes
      ensures Valid() && Made(old(Contents()), j, Contents(), r.Ok?)
      ensures r.Ok? ==> r.value == Value(this, |old(Contents()).cells|, generation)
      ensures r.Err? ==> r.error == Error(if valid then OutOfMemory else InvalidArgument, 0)
    {
      hide Tail, Inv, Shape, Picture, AddNode, Plant, Planted, Storable, ScalarInfo;
      r := MakeNode(ScalarInfo(j));
      MadeRight(old(Contents()), j);
    }

    /** make_number for doubles. */
    method MakeFloat(d: Double) returns (r: Result<Value>)
      requires Valid()
      modifies this, nodes
      ensures Valid() && Made(old(Contents()), JFloat(d), Contents(), r.Ok?)
      ensures r.Ok? ==> r.value == Value(this, |old(Contents()).cells|, generation)
      ensures r.Err? ==>
        r.error == Error(if d == NonFinite then NonFiniteNumber else if valid then OutOfMemory
            else InvalidArgument, 0)
    {
      hide Tail, Inv, Shape, Picture, AddNode, Plant, Planted, ScalarInfo;
      if d == NonFinite {
        return Fail(NonFiniteNumber);
      }
      r := MakeNode(ScalarInfo(JFloat(d)));
      MadeRight(old(Contents()), JFloat(d));
    }

    /** make_object and make_array. */
    method MakeContainer(isObject: bool) returns (r: Result<Value>)
      requires Valid()
      modifies this, nodes
      ensures Valid() && Made(old(Contents()), JContainer(isObject, []), Contents(), r.Ok?)
      ensures r.Ok? ==> r.value == Value(this, |old(Contents()).cells|, generation)
      ensures r.Err? ==> r.error == Error(if valid then OutOfMemory else InvalidArgument, 0)
    {
      hide Tail, Inv, Shape, Picture, AddNode, Plant, Planted, ContainerInfo;
      r := MakeNode(ContainerInfo(isObject));
      MadeRight(old(Contents()), JContainer(isObject, []));
    }

    /** make_string: checks everything first, so that nothing has to be taken back. */
    method MakeString(value: bytes) returns (r: Result<Value>)
      requires Valid()
      modifies Repr()
      ensures Valid() && Made(old(Contents()), JString(value), Contents(), r.Ok?)
      ensures r.Ok? ==> r.value == Value(this, |old(Contents()).cells|, generation)
      ensures r.Err? ==> r.error.code == MakeCode(old(Contents()), JString(value))
    {
      hide Tail, Shape, Picture, Inv, Plant, Planted, Text.Flags, Utf8.Valid, Utf8.IsOctets;
      if !valid {
        return Fail(InvalidArgument);
      }
      if |value| > 65535 {
        return Fail(StringCapacityExceeded);
      }
      var invalid := Utf8.InvalidOffset(value);
      if invalid.Some? {
        return Err(Error(InvalidUtf8, invalid.value));
      }
      if !CanAllocateNode() {
        return Fail(OutOfMemory);
      }
      if |value| > storage.Length - stringBytesUsed - (nodeCount + 1) * 24 {
        return Fail(StringCapacityExceeded);
      }
      var node := AllocateNode(String);
      assert node.Ok?;
      var copied := CopyString(value);
      assert copied.Ok?;
      var id := node.value;
      var flags := StringFlags(value);
      SetInfo(id, StringInfo(copied.value, flags));
      PlantStringSteps(old(Contents()), value);
      MadeRight(old(Contents()), JString(value));
      return Ok(Value(this, id, generation));
    }

    // ---------- linking ----------

    /** validate_attachment: whether `child` may be linked below the node `parentId`. */
    method ValidateAttachment(parentId: nat, gen: nat, child: Value, kind: ValueType) returns (r: Result<()>)
      requires Valid()
      ensures r == match Verdict(Contents(), Handle(parentId, gen), OwnerOf(child, this),
          Handle(child.id, child.generation), kind)
                   case None => Ok(())
                   case Some(code) => Fail(code)
    {
      hide Tail, Shape, Picture, InfosOk, KeysOk, Disjoint, IsAncestor, Acyclic;
      if !IsLive(parentId, gen) {
        return Fail(InvalidHandle);
      }
      NodeAt(parentId);
      if nodes[parentId].info.kind != kind {
        return Fail(TypeMismatch);
      }
      if child.slab != this || child.generation != generation {
        return Fail(if child.slab == null || child.slab == this then InvalidHandle else CrossSlab);
      }
      if !IsLive(child.id, child.generation) {
        return Fail(InvalidHandle);
      }
      NodeAt(child.id);
      if nodes[child.id].parent != INVALID_ID {
        return Fail(AlreadyAttached);
      }
      r := RejectCycle(parentId, child.id);
    }

    /** The walk from a container to its root, looking for the child. */
    method RejectCycle(parentId: nat, childId: nat) returns (r: Result<()>)
      requires Glued() && IsForest(cells) && valid && parentId < nodeCount && childId < nodeCount
      ensures r == if IsAncestor(cells, childId, parentId) then Fail(CycleDetected) else Ok(())
    {
      hide Tail, Picture, KidsOk, KidsDistinct, Acyclic, IsAncestor;
      ghost var rank := RankOf(cells);
      ghost var distance: nat := 0;
      var ancestor := parentId;
      while ancestor != INVALID_ID
        invariant ancestor == Climb(cells, parentId, distance)
        invariant ancestor != INVALID_ID ==> ancestor < nodeCount
        invariant forall d: nat :: d < distance ==> Climb(cells, parentId, d) != childId
        decreases if ancestor == INVALID_ID then 0 else MaxRank(rank) + 1 - rank[ancestor]
      {
        if ancestor == childId {
          Met(cells, parentId, childId, distance);
          return Fail(CycleDetected);
        }
        NodeAt(ancestor);
        if ancestor >= nodeCount {
          return Fail(InternalError);
        }
        assert cells[ancestor].parent != INVALID_ID ==> cells[ancestor].parent < nodeCount;
        ancestor := nodes[ancestor].parent;
        distance := distance + 1;
      }
      NeverMet(cells, parentId, childId, distance);
      return Ok(());
    }

    /** The array slot of a live node shows that node. */
    lemma NodeAt(id: nat)
      requires Glued() && id < nodeCount
      ensures id < nodes.Length && nodes[id] == NodeOf(cells, id)
    {
      assert nodes[id] == nodes[..nodeCount][id];
      PictureAt(cells, id);
    }

    /** The stored links lead from a container through its children in order. */
    lemma SiblingAt(p: nat, k: nat)
      requires Glued() && p < nodeCount
      ensures p < nodes.Length && nodes[p] == NodeOf(cells, p) && nodes[p].firstChild == KidAt(cells[p].kids, 0)
      ensures k < |cells[p].kids| ==>
        var c := cells[p].kids[k];
        && c < nodeCount && c < nodes.Length && nodes[c] == NodeOf(cells, c) && nodes[c].parent == p
        && nodes[c].nextSibling == KidAt(cells[p].kids, k + 1)
    {
      hide Tail, Picture, Next, IndexOf;
      NodeAt(p);
      if k < |cells[p].kids| {
        NextOfKid(cells, p, k);
        NodeAt(cells[p].kids[k]);
      }
    }

    /** The writes of append_child_unchecked, behind the writing of the child's key. */
    method LinkNodes(p: nat, c: nat, key: StringRef, keyFlags: nat)
      requires p < nodes.Length && c < nodes.Length && p != c
      requires nodes[p].lastChild != INVALID_ID ==>
        nodes[p].lastChild < nodes.Length && nodes[p].lastChild != p && nodes[p].lastChild != c
      modifies nodes
      ensures var last := old(nodes[p]).lastChild;
        && nodes[c] == old(nodes[c]).(info := old(nodes[c]).info.(key := key, keyFlags := keyFlags), parent := p,
            nextSibling := INVALID_ID)
        && nodes[p] == old(nodes[p]).(
             firstChild := if last == INVALID_ID then c else old(nodes[p]).firstChild, lastChild := c)
        && (last != INVALID_ID ==> nodes[last] == old(nodes[last]).(nextSibling := c))
        && forall i :: 0 <= i < nodes.Length && i != p && i != c && i != last ==> nodes[i] == old(nodes[i])
    {
      nodes[c] := nodes[c].(info := nodes[c].info.(key := key, keyFlags := keyFlags));
      nodes[c] := nodes[c].(parent := p, nextSibling := INVALID_ID);
      if nodes[p].lastChild == INVALID_ID {
        nodes[p] := nodes[p].(firstChild := c);
      } else {
        var last := nodes[p].lastChild;
        nodes[last] := nodes[last].(nextSibling := c);
      }
      nodes[p] := nodes[p].(lastChild := c);
    }

    /** append_child_unchecked: `c` becomes the last child of `p`. */
    method AppendChild(p: nat, c: nat, key: StringRef, keyFlags: nat)
      requires Glued() && CanAttach(Contents(), p, c) && IsForest(cells)
      modifies this`cells, nodes
      ensures Glued()
      ensures Contents() == AttachTo(old(Contents()), p, c, key, keyFlags)
    {
      hide Tail, Picture, Shape, IsForest, Attach, IsAncestor, Next;
      CanAttachDistinct(Contents(), p, c);
      AttachShape(cells, p, c, key, keyFlags);
      NodeAt(p);
      LastInvalid(cells, p);
      if cells[p].kids != [] {
        AttachDistinct(cells, p, c);
      }
      LinkNodes(p, c, key, keyFlags);
      AttachedNodes(cells, p, c, key, keyFlags, nodes[..nodeCount]);
      cells := Attach(cells, p, c, key, keyFlags);
    }

    /** The writes of unlink_child and of the end of Object::remove. */
    method UnlinkNodes(p: nat, previous: nat, c: nat)
      requires p < nodes.Length && c < nodes.Length && p != c
      requires previous != INVALID_ID ==> previous < nodes.Length && previous != p && previous != c
      modifies nodes
      ensures
        && nodes[c] == old(nodes[c]).(info := old(nodes[c]).info.(key := NO_STRING, keyFlags := 0),
            parent := INVALID_ID, nextSibling := INVALID_ID)
        && nodes[p] == old(nodes[p]).(
             firstChild := if previous == INVALID_ID then old(nodes[c]).nextSibling else old(nodes[p]).firstChild,
             lastChild := if old(nodes[p]).lastChild == c then previous else old(nodes[p]).lastChild)
        && (previous != INVALID_ID ==>
            nodes[previous] == old(nodes[previous]).(nextSibling := old(nodes[c]).nextSibling))
        && forall i :: 0 <= i < nodes.Length && i != p && i != c && i != previous ==> nodes[i] == old(nodes[i])
    {
      if previous == INVALID_ID {
        nodes[p] := nodes[p].(firstChild := nodes[c].nextSibling);
      } else {
        nodes[previous] := nodes[previous].(nextSibling := nodes[c].nextSibling);
      }
      if nodes[p].lastChild == c {
        nodes[p] := nodes[p].(lastChild := previous);
      }
      nodes[c] := nodes[c].(parent := INVALID_ID, nextSibling := INVALID_ID);
      nodes[c] := nodes[c].(info := nodes[c].info.(key := NO_STRING, keyFlags := 0));
    }

    /** unlink_child: the `k`-th child of `p` leaves the chain. */
    method Unlink(p: nat, previous: nat, c: nat, ghost k: nat)
      requires Glued() && IsForest(cells) && p < nodeCount && k < |cells[p].kids| && c == cells[p].kids[k]
      requires c < nodeCount
      requires previous == if k == 0 then INVALID_ID else cells[p].kids[k - 1]
      modifies this`cells, nodes
      ensures Glued()
      ensures Contents() == DetachFrom(old(Contents()), p, k)
    {
      hide Tail, Picture, Shape, IsForest, Detach, NodeOf;
      DetachForest(cells, p, k);
      ForestShape(Detach(cells, p, k));
      DetachDistinct(cells, p, k);
      UnlinkNodes(p, previous, c);
      DetachedNodes(cells, p, k, nodes[..nodeCount]);
      cells := Detach(cells, p, k);
    }

    // ---------- transactions ----------

    function Mark(): Checkpoint
      reads this
    {
      Checkpoint(stringBytesUsed, nodeCount)
    }

    /** rollback: the counters go back; what was live at the checkpoint is live and unchanged again. */
    method Rollback(checkpoint: Checkpoint, ghost before: State)
      requires Glued() && CountersOk(before) && Shape(before.cells)
      requires checkpoint == Checkpoint(|before.heap|, |before.cells|)
      requires Extends(before, Contents().(error := before.error))
      modifies this
      ensures Glued() && Contents() == before.(error := error) && error == old(error)
    {
      hide Tail, Shape, Picture, Inv, IsSuffix;
      PrefixPicture(before.cells, cells);
      ghost var all, pictures := storage[..], nodes[..nodeCount];
      TailShrinks(all, stringBytesUsed, before.heap);
      stringBytesUsed := checkpoint.stringBytesUsed;
      nodeCount := checkpoint.nodeCount;
      cells := before.cells;
      assert nodes[..nodeCount] == pictures[..nodeCount];
      assert storage[..] == all;
    }

    method RecordError(e: Error) returns (r: Error)
      requires Glued()
      modifies this`error
      ensures Glued() && (old(Valid()) ==> Valid())
      ensures r == error && error == (if old(error).code == NoError then e else old(error))
      ensures Contents() == old(Contents()).(error := error)
    {
      hide Tail, Inv, Shape, Picture;
      if error.code == NoError {
        error := e;
      }
      ErrorIrrelevant(old(Contents()), error);
      r := error;
    }

    /** view_string. */
    method ViewString(r: StringRef) returns (t: bytes)
      requires Glued() && Live(Contents(), r)
      ensures t == View(Contents(), r)
    {
      hide Tail, Shape, Picture;
      if r.offset > storage.Length || r.length > storage.Length - r.offset || r.length == 0 {
        return [];
      }
      ghost var free := storage.Length - stringBytesUsed;
      TailAt(storage[..], stringBytesUsed, r.offset - free, r.offset + r.length - free);
      t := storage[r.offset..r.offset + r.length];
    }
  }

  /** Which slab a handle belongs to, from the point of view of `slab`. */
  function OwnerOf(v: Value, slab: Slab): (o: Owner)
    ensures o == Own <==> v.slab == slab
  {
    if v.slab == null then Nobody else if v.slab == slab then Own else Foreign
  }

  function HandleOf(v: Value): Handle {
    Handle(v.id, v.generation)
  }

  ghost function Region(slab: Slab?): set<object> {
    if slab == null then {} else slab.Repr()
  }

  function IdOf(r: Result<Value>): Result<nat> {
    match r
    case Ok(v) => Ok(v.id)
    case Err(e) => Err(e)
  }

  // ---------- small facts about contents ----------

  /** Allocating the node, then the bytes, then filling the node in is planting the string. */
  lemma PlantStringSteps(s: State, value: bytes)
    ensures var t := AddString(AddNode(s, FreshInfo(String)), value);
            var r := NewRef(AddNode(s, FreshInfo(String)), value);
            && |t.cells| == |s.cells| + 1
            && t.(cells := t.cells[|s.cells| := t.cells[|s.cells|].(info := StringInfo(r, Text.Flags(value)))]) ==
                PlantString(s, value)
  {
    hide Text.Flags;
    var n := |s.cells|;
    var info := StringInfo(NewRef(s, value), Text.Flags(value));
    assert AddCell(s.cells, FreshInfo(String))[n := Cell(info, INVALID_ID, [])] == AddCell(s.cells, info);
  }

  lemma ForestShape(cells: Cells)
    requires IsForest(cells)
    ensures Shape(cells)
  {
  }

  lemma CanAttachDistinct(s: State, p: nat, c: nat)
    requires CanAttach(s, p, c)
    ensures p != c && p < |s.cells| && c < |s.cells| && s.cells[c].parent == INVALID_ID
    ensures IsContainer(s.cells[p].info.kind)
  {
    AncestorSelf(s.cells, p);
  }

  /** The last child is invalid exactly if there is none. */
  lemma LastInvalid(cells: Cells, p: nat)
    requires Shape(cells) && p < |cells|
    ensures NodeOf(cells, p).lastChild == INVALID_ID <==> cells[p].kids == []
    ensures cells[p].kids != [] ==> Last(cells[p].kids) < |cells|
  {
  }

  lemma Met(cells: Cells, x: nat, c: nat, distance: nat)
    requires Climb(cells, x, distance) == c
    ensures IsAncestor(cells, c, x)
  {
  }

  /** A climb that left the forest without meeting `c` never meets it. */
  lemma NeverMet(cells: Cells, x: nat, c: nat, distance: nat)
    requires |cells| < INVALID_ID && Climb(cells, x, distance) == INVALID_ID && c < |cells|
    requires forall d: nat :: d < distance ==> Climb(cells, x, d) != c
    ensures !IsAncestor(cells, c, x)
  {
    if IsAncestor(cells, c, x) {
      var d: nat :| Climb(cells, x, d) == c;
      ClimbAdds(cells, x, distance, d - distance);
      ClimbLost(cells, INVALID_ID, d - distance);
    }
  }

  function StoreError(valid: bool, value: bytes): ErrorCode {
    if !Utf8.Valid(value) then InvalidUtf8 else if valid then StringCapacityExceeded else InvalidArgument
  }

  function NextGeneration(g: nat): (n: nat)
    ensures n != 0
  {
    if (g + 1) % 0x1_0000_0000 == 0 then 1 else (g + 1) % 0x1_0000_0000
  }

  lemma EmptyInv(s: State)
    requires CountersOk(s) && s.cells == []
    ensures Inv(s) && Picture(s.cells) == [] && Shape(s.cells)
  {
    assert IsRank(s.cells, []);
  }

  lemma ErrorIrrelevant(s: State, e: Error)
    ensures Inv(s.(error := e)) == Inv(s)
  {
    hide IsForest, Disjoint, StringOk, Live, View;
    var t := s.(error := e);
    SameHeap(s, t);
    assert InfosOk(s) == InfosOk(t) by {
      assert forall i :: 0 <= i < |s.cells| ==> InfoOk(s, s.cells[i].info) == InfoOk(t, s.cells[i].info);
    }
    assert KeysOk(s) == KeysOk(t) by {
      assert forall i :: 0 <= i < |s.cells| ==> KeyOk(s, s.cells[i]) == KeyOk(t, s.cells[i]);
    }
  }

  lemma InfoShape(cells: Cells, i: nat, info: Info)
    requires Shape(cells) && i < |cells| && (IsContainer(info.kind) || !IsContainer(cells[i].info.kind))
    ensures Shape(cells[i := cells[i].(info := info)])
  {
    var r := cells[i := cells[i].(info := info)];
    assert forall x :: 0 <= x < |cells| ==> r[x].kids == cells[x].kids && r[x].parent == cells[x].parent;
  }
}
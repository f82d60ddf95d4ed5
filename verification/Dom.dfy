/** The contents of a slab as a value: cells, string bytes, generation and error; and what they denote. */
module Dom {
  import opened Base
  import opened Json
  import opened Forest
  import Text
  import Utf8

  /** Slab::kMaxStorageBytes. */
  const MAX_STORAGE := 65535

  /** `heap` is the used tail of the storage: strings grow towards its front. */
  datatype State = State(
    valid: bool, capacity: nat, cells: Cells, heap: bytes, generation: nat, error: Error)

  function UsedBytes(s: State): nat {
    24 * |s.cells| + |s.heap|
  }

  function Remaining(s: State): int {
    s.capacity - UsedBytes(s)
  }

  // ---------- strings ----------

  /** The reference is empty or lies inside the used string bytes. */
  predicate Live(s: State, r: StringRef) {
    r.length == 0 || (0 < r.length && s.capacity - |s.heap| <= r.offset && r.offset + r.length <= s.capacity)
  }

  function View(s: State, r: StringRef): bytes {
    if r.length != 0 && Live(s, r) then
      var i := r.offset - (s.capacity - |s.heap|);
      s.heap[i..i + r.length]
    else []
  }

  /** A stored string: live, UTF-8, and its escape flag is right. */
  predicate StringOk(s: State, r: StringRef, flags: nat) {
    Live(s, r) && Utf8.Valid(View(s, r)) && flags == Text.Flags(View(s, r))
  }

  /** The string a cell owns: its key, or its value. */
  function Ref(cell: Cell, isKey: bool): StringRef {
    if isKey then cell.info.key
    else if cell.info.kind == String && cell.info.payload.PString? then cell.info.payload.ref
    else NO_STRING
  }

  predicate Apart(a: StringRef, b: StringRef) {
    a.length == 0 || b.length == 0 || a.offset + a.length <= b.offset || b.offset + b.length <= a.offset
  }

  ghost predicate Unclaimed(cells: Cells, r: StringRef) {
    forall i, isKey :: 0 <= i < |cells| ==> Apart(Ref(cells[i], isKey), r)
  }

  // ---------- the invariant of every reachable slab ----------

  predicate CountersOk(s: State) {
    && 24 * |s.cells| + |s.heap| <= s.capacity <= MAX_STORAGE
    && (if s.valid then NODE_BYTES <= s.capacity else s.capacity == 0)
    && 1 <= s.generation < 0x1_0000_0000
  }

  /** The payload fits the kind. */
  predicate InfoOk(s: State, info: Info) {
    match info.kind
    case Invalid => false
    case Bool => info.payload.PBool?
    case Number =>
      (match info.aux
       case SignedInteger => info.payload.PSigned? && INT64_MIN <= info.payload.i <= INT64_MAX
       case UnsignedInteger => info.payload.PUnsigned? && 0 <= info.payload.u <= UINT64_MAX
       case FloatingPoint => info.payload.PFloat? && info.payload.d != NonFinite)
    case String => info.payload.PString? && StringOk(s, info.payload.ref, info.valueFlags)
    case _ => true
  }

  ghost predicate InfosOk(s: State) {
    forall i :: 0 <= i < |s.cells| ==> InfoOk(s, s.cells[i].info)
  }

  /** Members of objects have a stored key; nothing else has one. */
  predicate KeyOk(s: State, c: Cell) {
    if c.parent < |s.cells| && s.cells[c.parent].info.kind == Object
    then StringOk(s, c.info.key, c.info.keyFlags)
    else c.info.key == NO_STRING
  }

  ghost predicate KeysOk(s: State) {
    forall i :: 0 <= i < |s.cells| ==> KeyOk(s, s.cells[i])
  }

  /** No two stored strings overlap. */
  ghost predicate Disjoint(cells: Cells) {
    forall i, j, a, b :: 0 <= i < |cells| && 0 <= j < |cells| && (i != j || a != b) ==>
        Apart(Ref(cells[i], a), Ref(cells[j], b))
  }

  ghost predicate Inv(s: State) {
    CountersOk(s) && IsForest(s.cells) && InfosOk(s) && KeysOk(s) && Disjoint(s.cells)
  }

  // ---------- denotation ----------

  /** What a node without children denotes. */
  function Leaf(s: State, info: Info): Json {
    match info.kind
    case Bool => JBool(info.payload.PBool? && info.payload.b)
    case Number =>
      if info.aux == SignedInteger && info.payload.PSigned? then JInt(info.payload.i)
      else if info.aux == UnsignedInteger && info.payload.PUnsigned? then JUInt(info.payload.u)
      else if info.payload.PFloat? then JFloat(info.payload.d)
      else JNull
    case String => if info.payload.PString? then JString(View(s, info.payload.ref)) else JNull
    case _ => JNull
  }

  /** The key under which `p` holds its child `c`; elements of arrays have none. */
  function KeyOf(s: State, p: nat, c: nat): bytes {
    if p < |s.cells| && c < |s.cells| && s.cells[p].info.kind == Object then View(s, s.cells[c].info.key) else []
  }

  /** The value of the tree under `x`. */
  ghost function Denote(s: State, x: nat): Json
    requires IsForest(s.cells) && x < |s.cells|
    decreases RankOf(s.cells)[x], 1, 0
  {
    var info := s.cells[x].info;
    if IsContainer(info.kind) then JContainer(info.kind == Object, Members(s, x, 0)) else Leaf(s, info)
  }

  /** The children of `x` from the `k`-th on. */
  ghost function Members(s: State, x: nat, k: nat): (ms: seq<Member>)
    requires IsForest(s.cells) && x < |s.cells| && k <= |s.cells[x].kids|
    ensures |ms| == |s.cells[x].kids| - k
    decreases RankOf(s.cells)[x], 0, |s.cells[x].kids| - k
  {
    if k == |s.cells[x].kids| then []
    else
      var c := s.cells[x].kids[k];
      assert s.cells[c].parent == x;
      [Member(KeyOf(s, x, c), Denote(s, c))] + Members(s, x, k + 1)
  }

  lemma KidValid(s: State, x: nat, k: nat)
    requires IsForest(s.cells) && x < |s.cells| && k < |s.cells[x].kids|
    ensures var c := s.cells[x].kids[k];
            c < |s.cells| && s.cells[c].parent == x && 0 <= RankOf(s.cells)[c] < RankOf(s.cells)[x]
  {
  }

  lemma {:induction false} MembersAt(s: State, x: nat, k: nat, i: nat)
    requires IsForest(s.cells) && x < |s.cells| && k + i < |s.cells[x].kids|
    ensures var c := s.cells[x].kids[k + i];
            c < |s.cells| && Members(s, x, k)[i] == Member(KeyOf(s, x, c), Denote(s, c))
    decreases i
  {
    KidValid(s, x, k);
    if i > 0 {
      MembersAt(s, x, k + 1, i - 1);
    } else {
      KidValid(s, x, k);
    }
  }

  // ---------- frames ----------

  /** The cells in `d` and all their children look the same in both states. */
  ghost predicate SameOn(s: State, t: State, d: set<nat>) {
    forall y :: y in d ==>
      && y < |s.cells| && y < |t.cells|
      && s.cells[y].kids == t.cells[y].kids
      && s.cells[y].info.kind == t.cells[y].info.kind
      && Leaf(s, s.cells[y].info) == Leaf(t, t.cells[y].info)
      && forall k :: 0 <= k < |s.cells[y].kids| ==>
           s.cells[y].kids[k] in d && KeyOf(s, y, s.cells[y].kids[k]) == KeyOf(t, y, s.cells[y].kids[k])
  }

  /** What a tree denotes depends on nothing outside it. */
  lemma {:induction false} DenoteFrame(s: State, t: State, d: set<nat>, x: nat)
    requires IsForest(s.cells) && IsForest(t.cells) && SameOn(s, t, d) && x in d
    ensures x < |s.cells| && x < |t.cells| && Denote(s, x) == Denote(t, x)
    decreases RankOf(s.cells)[x], 1, 0
  {
    MembersFrame(s, t, d, x, 0);
  }

  lemma {:induction false} MembersFrame(s: State, t: State, d: set<nat>, x: nat, k: nat)
    requires IsForest(s.cells) && IsForest(t.cells) && SameOn(s, t, d) && x in d
    requires k <= |s.cells[x].kids|
    ensures x < |s.cells| && x < |t.cells| && s.cells[x].kids == t.cells[x].kids
    ensures Members(s, x, k) == Members(t, x, k)
    decreases RankOf(s.cells)[x], 0, |s.cells[x].kids| - k
  {
    hide Leaf, KeyOf, Shape, Acyclic, IsRank;
    if k < |s.cells[x].kids| {
      KidValid(s, x, k);
      DenoteFrame(s, t, d, s.cells[x].kids[k]);
      MembersFrame(s, t, d, x, k + 1);
    }
  }

  // ---------- growth ----------

  /** The numbers below `n`. */
  ghost function Below(n: nat): (d: set<nat>)
    ensures forall y :: y in d <==> 0 <= y < n
  {
    if n == 0 then {} else Below(n - 1) + {n - 1}
  }

  /** `t` keeps every node and every string byte of `s`. */
  ghost predicate Extends(s: State, t: State) {
    && s.cells <= t.cells
    && IsSuffix(s.heap, t.heap)
    && t.capacity == s.capacity && t.valid == s.valid && t.generation == s.generation && t.error == s.error
  }

  lemma ExtendsSelf(s: State)
    ensures Extends(s, s)
  {
    SuffixSelf(s.heap);
  }

  lemma ExtendsTransitive(s: State, t: State, u: State)
    requires Extends(s, t) && Extends(t, u)
    ensures Extends(s, u)
  {
    SuffixTransitive(s.heap, t.heap, u.heap);
  }

  /** Later allocations change no live string. */
  lemma ViewStable(s: State, t: State, r: StringRef)
    requires IsSuffix(s.heap, t.heap) && t.capacity == s.capacity && Live(s, r)
    ensures Live(t, r) && View(t, r) == View(s, r)
  {
    if r.length != 0 {
      var i := r.offset - (s.capacity - |s.heap|);
      TailAt(t.heap, |s.heap|, i, i + r.length);
    }
  }

  /** Nor any value that is not a container. */
  lemma LeafStable(s: State, t: State, cell: Cell)
    requires IsSuffix(s.heap, t.heap) && t.capacity == s.capacity && Live(s, Ref(cell, false))
    ensures Leaf(t, cell.info) == Leaf(s, cell.info)
  {
    hide IsSuffix, View, Live;
    ViewStable(s, t, Ref(cell, false));
  }

  lemma RefLive(s: State, i: nat, isKey: bool)
    requires InfosOk(s) && KeysOk(s) && i < |s.cells|
    ensures Live(s, Ref(s.cells[i], isKey))
  {
    assert InfoOk(s, s.cells[i].info) && KeyOk(s, s.cells[i]);
  }

  /** Nor does it change what an old tree denotes. */
  lemma ExtendsDenotes(s: State, t: State, x: nat)
    requires Inv(s) && IsForest(t.cells) && Extends(s, t) && x < |s.cells|
    ensures Denote(t, x) == Denote(s, x)
    ensures t.cells[x].kids == s.cells[x].kids && Members(t, x, 0) == Members(s, x, 0)
  {
    var d := Below(|s.cells|);
    SameOld(s, t, d);
    DenoteFrame(s, t, d, x);
    MembersFrame(s, t, d, x, 0);
  }

  lemma SameOld(s: State, t: State, d: set<nat>)
    requires Inv(s) && Extends(s, t) && d == Below(|s.cells|)
    ensures SameOn(s, t, d)
  {
    hide Inv, Extends, Leaf, KeyOf;
    forall y | y in d
      ensures y < |t.cells| && t.cells[y] == s.cells[y] && Leaf(s, s.cells[y].info) == Leaf(t, t.cells[y].info)
    {
      OldLeaf(s, t, y);
    }
    forall y, k | y in d && 0 <= k < |s.cells[y].kids|
      ensures s.cells[y].kids[k] in d && KeyOf(s, y, s.cells[y].kids[k]) == KeyOf(t, y, s.cells[y].kids[k])
    {
      OldKey(s, t, y, k);
    }
  }

  lemma OldLeaf(s: State, t: State, y: nat)
    requires Inv(s) && Extends(s, t) && y < |s.cells|
    ensures y < |t.cells| && t.cells[y] == s.cells[y] && Leaf(s, s.cells[y].info) == Leaf(t, t.cells[y].info)
  {
    hide IsForest, Disjoint, InfosOk, KeysOk, CountersOk, Leaf, IsSuffix, Live;
    RefLive(s, y, false);
    LeafStable(s, t, s.cells[y]);
  }

  lemma OldKey(s: State, t: State, y: nat, k: nat)
    requires Inv(s) && Extends(s, t) && y < |s.cells| && k < |s.cells[y].kids|
    ensures s.cells[y].kids[k] < |s.cells| && KeyOf(s, y, s.cells[y].kids[k]) == KeyOf(t, y, s.cells[y].kids[k])
  {
    hide Acyclic, Disjoint, InfosOk, KeysOk, CountersOk, IsSuffix, Live, View;
    var c := s.cells[y].kids[k];
    RefLive(s, c, true);
    ViewStable(s, t, s.cells[c].info.key);
  }
}

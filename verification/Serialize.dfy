/** The serializer: writers, and a walk over the stored links that needs no stack. */
module Serialize {
  import opened Base
  import opened Json
  import opened Forest
  import opened Links
  import opened Dom
  import opened Text
  import opened Spec
  import opened Slabs
  import Accounting
  import Clone
  import Utf8

  /** The three writers the walk is instantiated with. */
  datatype Mode = Counting | Checked | Unchecked

  /** std::numeric_limits<std::size_t>::max() where size_t is narrowest. */
  const SIZE_MAX: nat := Accounting.SIZE_MAX_32

  /** A writer that is to produce `goal`: `written` is out, `left` is still to come. */
  class Writer {
    const mode: Mode
    const output: array<byte>
    /** How much of the array the writer was given. */
    const size: nat
    var position: nat
    ghost const goal: bytes
    ghost const initial: bytes
    ghost var written: bytes
    ghost var left: bytes

    ghost function Limit(): nat {
      if mode == Counting then SIZE_MAX else size
    }

    /** The buffer holds what is written, and behind it what it held before. */
    ghost predicate Valid()
      reads this, output
    {
      && position == |written| <= Limit()
      && written + left == goal
      && |goal| <= SIZE_MAX && size <= output.Length
      && (mode == Unchecked ==> |goal| <= Limit())
      && |initial| == output.Length
      && (forall i :: 0 <= i < output.Length ==>
          output[i] == if mode != Counting && i < position then written[i] else initial[i])
    }

    lemma LeftInGoal()
      requires Valid()
      ensures |left| <= |goal| <= SIZE_MAX
    {
    }

    lemma Finished()
      requires Valid()
      ensures left == [] ==> position == |goal| && written == goal
      ensures written == [] ==> left == goal
    {
      assert written == [] ==> [] + left == goal;
    }

    constructor (mode: Mode, output: array<byte>, size: nat, ghost goal: bytes)
      requires |goal| <= SIZE_MAX && size <= output.Length && (mode == Unchecked ==> |goal| <= size)
      ensures Valid() && this.mode == mode && this.output == output && this.size == size && this.goal == goal
      ensures left == goal && written == []
      ensures initial == output[..]
    {
      this.mode, this.output, this.size, this.goal := mode, output, size, goal;
      position, written, left, initial := 0, [], goal, output[..];
      new;
      assert [] + goal == goal;
    }

    /**
     * append. Counting only counts; the checked writer refuses what does not fit; the unchecked one trusts its
     * caller.
     */
    method Append(text: bytes, ghost rest: bytes) returns (ok: bool)
      requires Valid() && left == text + rest
      modifies this, output
      ensures Valid()
      ensures ok ==> left == rest && written == old(written) + text
      ensures !ok ==> |goal| > Limit() && written == old(written) && left == old(left)
    {
      if (mode == Counting && |text| > SIZE_MAX - position) || (mode == Checked && |text| > size - position) {
        return false;
      }
      if mode != Counting {
        forall i | 0 <= i < |text| {
          output[position + i] := text[i];
        }
      }
      position := position + |text|;
      Associate(written, text, rest);
      written, left := written + text, rest;
      return true;
    }

    /** append_repeated for blanks. */
    method AppendSpaces(count: nat, ghost rest: bytes) returns (ok: bool)
      requires Valid() && left == Spaces(count) + rest
      modifies this, output
      ensures Valid()
      ensures ok ==> left == rest && written == old(written) + Spaces(count)
      ensures !ok ==> |goal| > Limit() && written == old(written) && left == old(left)
    {
      ok := Append(Spaces(count), rest);
    }
  }

  // ---------- tokens ----------

  /** Escaping from `i` on: a plain run up to `j`, then the escape of the byte there. */
  lemma EscapeRun(value: bytes, i: nat, j: nat)
    requires i <= j <= |value| && forall k :: i <= k < j ==> !NeedsEscape(value[k])
    ensures Escape(Utf8.From(value, i)) == Section(value, i, j) + Escape(Utf8.From(value, j))
  {
    var run, rest := value[i..j], value[j..];
    assert value[i..] == run + rest;
    EscapeConcat(run, rest);
    assert Flags(run) == 0;
    EscapeFixesPlain(run);
  }

  lemma EscapeNext(value: bytes, j: nat)
    requires j < |value|
    ensures Escape(Utf8.From(value, j)) == EscapeByte(value[j]) + Escape(Utf8.From(value, j + 1))
  {
    hide EscapeByte;
    assert value[j..][1..] == value[j + 1..];
  }

  lemma PlainString(value: bytes)
    requires Flags(value) == 0
    ensures Escape(value) == value
  {
    EscapeFixesPlain(value);
  }

  /** write_string: a string that needs no escapes goes out at once, any other run by run. */
  method WriteString(w: Writer, flags: nat, validate: bool, value: bytes, ghost rest: bytes) returns (r: Result<()>)
    requires w.Valid() && Utf8.Valid(value) && flags == Flags(value) && w.left == Quoted(value) + rest
    modifies w, w.output
    ensures w.Valid()
    ensures r.Ok? ==> w.left == rest
    ensures r.Err? ==> |w.goal| > w.Limit() && r.error == Error(OutputCapacityExceeded, 0)
  {
    hide Escape, EscapeByte, Flags, Utf8.Valid, Utf8.IsOctets, Utf8.From, Section;
    if validate {
      var invalid := Utf8.InvalidOffset(value);
      match invalid {
        case Some(offset) => return Err(Error(InvalidUtf8, offset));
        case None =>
      }
    }
    ghost var tail := [QUOTE] + rest;
    assert Quoted(value) + rest == [QUOTE] + (Escape(value) + tail);
    var ok := w.Append([QUOTE], Escape(value) + tail);
    if !ok {
      return Fail(OutputCapacityExceeded);
    }
    FlagsValue(value);
    if flags == 0 {
      PlainString(value);
      ok := w.Append(value, tail);
      if ok {
        ok := w.Append([QUOTE], rest);
      }
      return if ok then Ok(()) else Fail(OutputCapacityExceeded);
    }
    Utf8.FromStart(value);
    var start, index := 0, 0;
    while index < |value|
      invariant start <= index <= |value| && w.Valid()
      invariant w.left == Escape(Utf8.From(value, start)) + tail
      invariant forall k :: start <= k < index ==> !NeedsEscape(value[k])
    {
      var b := value[index];
      if NeedsEscape(b) {
        EscapeRun(value, start, index);
        EscapeNext(value, index);
        ghost var behind := Escape(Utf8.From(value, index + 1)) + tail;
        Associate(Section(value, start, index), Escape(Utf8.From(value, index)), tail);
        Associate(EscapeByte(b), Escape(Utf8.From(value, index + 1)), tail);
        ok := w.Append(Section(value, start, index), EscapeByte(b) + behind);
        if ok {
          ok := w.Append(EscapeByte(b), behind);
        }
        if !ok {
          return Fail(OutputCapacityExceeded);
        }
        start := index + 1;
      }
      index := index + 1;
    }
    EscapeRun(value, start, index);
    NothingEscaped(value);
    ok := w.Append(Section(value, start, |value|), tail);
    if ok {
      ok := w.Append([QUOTE], rest);
    }
    return if ok then Ok(()) else Fail(OutputCapacityExceeded);
  }

  lemma NothingEscaped(value: bytes)
    ensures Escape(Utf8.From(value, |value|)) == []
    ensures forall run: bytes :: run + [] == run
  {
  }

  /** write_number. */
  method WriteNumber(w: Writer, ghost s: State, info: Info, ghost rest: bytes) returns (r: Result<()>)
    requires w.Valid() && info.kind == Number && InfoOk(s, info) && w.left == NumberText(Leaf(s, info)) + rest
    modifies w, w.output
    ensures w.Valid()
    ensures r.Ok? ==> w.left == rest
    ensures r.Err? ==> |w.goal| > w.Limit() && r.error == Error(OutputCapacityExceeded, 0)
  {
    hide IntegerText;
    var text: bytes;
    match info.aux {
      case SignedInteger => text := IntegerText(info.payload.i);
      case UnsignedInteger => text := IntegerText(info.payload.u);
      case FloatingPoint =>
        match info.payload.d {
          case NonFinite => return Fail(NonFiniteNumber);
          case NegativeZero => text := NEGATIVE_ZERO_TEXT;
          case Finite(t) => text := t;
        }
    }
    var ok := w.Append(text, rest);
    return if ok then Ok(()) else Fail(OutputCapacityExceeded);
  }

  // ---------- layout ----------

  lemma IndentOverflow(depth: nat, indent: nat)
    requires indent != 0
    ensures depth > SIZE_MAX / indent <==> depth * indent > SIZE_MAX
  {
    var q := SIZE_MAX / indent;
    if depth > q {
      assert depth * indent >= (q + 1) * indent;
    } else {
      assert depth * indent <= q * indent;
    }
  }

  /** write_indent. Its guard against overflow never fires, as the blanks are part of an output that SIZE_MAX bounds. */
  method WriteIndent(w: Writer, f: Format, depth: nat, ghost rest: bytes) returns (ok: bool)
    requires w.Valid() && w.left == Spaces(depth * f.indent) + rest
    modifies w, w.output
    ensures w.Valid() && depth * f.indent <= SIZE_MAX
    ensures ok ==> w.left == rest
    ensures !ok ==> |w.goal| > w.Limit()
  {
    w.LeftInGoal();
    if f.indent != 0 {
      IndentOverflow(depth, f.indent);
      if depth > SIZE_MAX / f.indent {
        return false;
      }
    }
    ok := w.AppendSpaces(depth * f.indent, rest);
  }

  /** What the pretty printer puts in front of a member or a closing bracket. */
  method WriteBreak(w: Writer, f: Format, depth: nat, ghost rest: bytes) returns (ok: bool)
    requires w.Valid() && w.left == Break(f, depth) + rest
    modifies w, w.output
    ensures w.Valid()
    ensures ok ==> w.left == rest
    ensures !ok ==> |w.goal| > w.Limit()
  {
    hide Spaces;
    if !f.pretty {
      assert [] + rest == rest;
      return true;
    }
    Associate([NEWLINE], Spaces(depth * f.indent), rest);
    ok := w.Append([NEWLINE], Spaces(depth * f.indent) + rest);
    if ok {
      ok := WriteIndent(w, f, depth, rest);
    }
  }

  /** write_member_prefix. */
  method WritePrefix(w: Writer, f: Format, validate: bool, flags: nat, key: bytes, ghost rest: bytes)
    returns (r: Result<()>)
    requires w.Valid() && Utf8.Valid(key) && flags == Flags(key) && w.left == Prefix(true, key, f) + rest
    modifies w, w.output
    ensures w.Valid()
    ensures r.Ok? ==> w.left == rest
    ensures r.Err? ==> |w.goal| > w.Limit() && r.error == Error(OutputCapacityExceeded, 0)
  {
    hide Quoted, Flags, Utf8.Valid;
    ghost var blank := if f.pretty then [SPACE] else [];
    Associate(Quoted(key), if f.pretty then [COLON, SPACE] else [COLON], rest);
    r := WriteString(w, flags, validate, key, [COLON] + (blank + rest));
    if r.Err? {
      return r;
    }
    var ok := w.Append([COLON], blank + rest);
    if ok && f.pretty {
      ok := w.Append([SPACE], rest);
    }
    assert !f.pretty ==> blank + rest == rest;
    return if ok then Ok(()) else Fail(OutputCapacityExceeded);
  }

  // ---------- what is still to be printed ----------

  /** The text behind the value of `x`, which stands `d` levels below the root of the walk. */
  ghost function Rest(s: State, f: Format, x: nat, d: nat): bytes
    requires IsForest(s.cells) && x < |s.cells|
    decreases d
  {
    if d == 0 || s.cells[x].parent >= |s.cells| then []
    else
      var p := s.cells[x].parent;
      var k := IndexOf(s.cells[p].kids, x);
      var o := s.cells[p].info.kind == Object;
      PrintMembers(o, Members(s, p, k + 1), f, d, false) + (Break(f, d - 1) + ([Close(o)] + Rest(s, f, p, d - 1)))
  }

  lemma RestStep(s: State, f: Format, p: nat, k: nat, d: nat)
    requires IsForest(s.cells) && p < |s.cells| && k < |s.cells[p].kids| && d > 0
    ensures var c, o := s.cells[p].kids[k], s.cells[p].info.kind == Object;
            && c < |s.cells| && s.cells[c].parent == p
            && Rest(s, f, c, d) ==
                 PrintMembers(o, Members(s, p, k + 1), f, d, false) +
                     (Break(f, d - 1) + ([Close(o)] + Rest(s, f, p, d - 1)))
  {
    hide KidsOk, KidsDistinct, Acyclic, PrintMembers, Members, Break;
    IndexIsPosition(s.cells, p, k);
    KidValid(s, p, k);
  }

  /** Printing the members from one on, with what follows. */
  lemma MembersText(s: State, f: Format, p: nat, k: nat, d: nat, first: bool, tail: bytes)
    requires IsForest(s.cells) && p < |s.cells| && k < |s.cells[p].kids|
    ensures var c, o := s.cells[p].kids[k], s.cells[p].info.kind == Object;
            && c < |s.cells|
            && PrintMembers(o, Members(s, p, k), f, d, first) + tail ==
                 (if first then [] else [COMMA]) + (Break(f, d) + (Prefix(o, KeyOf(s, p, c), f)
                 + (Print(Denote(s, c), f, d) + (PrintMembers(o, Members(s, p, k + 1), f, d, false) + tail))))
  {
    hide Shape, Acyclic, Denote, KeyOf, Break, Prefix, Print, Members;
    Clone.MembersStep(s, p, k);
    var c, o := s.cells[p].kids[k], s.cells[p].info.kind == Object;
    var m, rest := Member(KeyOf(s, p, c), Denote(s, c)), Members(s, p, k + 1);
    var comma := if first then [] else [COMMA];
    var line, name, value := Break(f, d), Prefix(o, m.key, f), Print(m.value, f, d);
    var more := PrintMembers(o, rest, f, d, false);
    MembersCons(o, m, rest, f, d, first);
    Regroup(comma, line, name, value, more, tail);
  }

  lemma MembersCons(o: bool, m: Member, rest: seq<Member>, f: Format, d: nat, first: bool)
    ensures PrintMembers(o, [m] + rest, f, d, first) ==
      (if first then [] else [COMMA]) + Break(f, d) + Prefix(o, m.key, f) + Print(m.value, f, d) +
          PrintMembers(o, rest, f, d, false)
  {
    hide Break, Prefix, Print;
    assert ([m] + rest)[1..] == rest;
  }

  lemma Regroup(a: bytes, b: bytes, c: bytes, d: bytes, e: bytes, tail: bytes)
    ensures a + b + c + d + e + tail == a + (b + (c + (d + (e + tail))))
  {
  }

  /** Going down to the first child. */
  lemma Enter(s: State, f: Format, x: nat, d: nat)
    requires IsForest(s.cells) && x < |s.cells| && s.cells[x].kids != [] && IsContainer(s.cells[x].info.kind)
    ensures var c, o := s.cells[x].kids[0], s.cells[x].info.kind == Object;
            && c < |s.cells| && s.cells[c].parent == x
            && Print(Denote(s, x), f, d) + Rest(s, f, x, d) ==
                 [Open(o)] + (Break(f, d + 1) +
                     (Prefix(o, KeyOf(s, x, c), f) + (Print(Denote(s, c), f, d + 1) + Rest(s, f, c, d + 1))))
  {
    hide Shape, Acyclic, KeyOf, Break, Prefix, PrintMembers, Members, Rest;
    KidValid(s, x, 0);
    var o, ms := s.cells[x].info.kind == Object, Members(s, x, 0);
    var tail := Break(f, d) + ([Close(o)] + Rest(s, f, x, d));
    MembersText(s, f, x, 0, d + 1, true, tail);
    RestStep(s, f, x, 0, d + 1);
    var all := PrintMembers(o, ms, f, d + 1, true);
    assert ms != [] && Denote(s, x) == JContainer(o, ms);
    PrintContainer(o, ms, f, d);
    OpenGroup([Open(o)], all, Break(f, d), [Close(o)], Rest(s, f, x, d));
    var text := all + tail;
    assert forall t: bytes :: [] + t == t;
  }

  lemma PrintContainer(o: bool, ms: seq<Member>, f: Format, d: nat)
    requires ms != []
    ensures Print(JContainer(o, ms), f, d) ==
        [Open(o)] + (PrintMembers(o, ms, f, d + 1, true) + Break(f, d)) + [Close(o)]
  {
    hide PrintMembers, Break;
  }

  lemma OpenGroup(a: bytes, b: bytes, c: bytes, d: bytes, e: bytes)
    ensures a + (b + c) + d + e == a + (b + (c + (d + e)))
  {
  }

  /** Going over to the next sibling. */
  lemma Sideways(s: State, f: Format, p: nat, k: nat, d: nat)
    requires IsForest(s.cells) && p < |s.cells| && k + 1 < |s.cells[p].kids| && d > 0
    ensures var x, c, o := s.cells[p].kids[k], s.cells[p].kids[k + 1], s.cells[p].info.kind == Object;
            && x < |s.cells| && c < |s.cells| && s.cells[c].parent == p
            && Rest(s, f, x, d) ==
                 [COMMA] + (Break(f, d) +
                     (Prefix(o, KeyOf(s, p, c), f) + (Print(Denote(s, c), f, d) + Rest(s, f, c, d))))
  {
    hide Shape, Acyclic, KeyOf, Break, Prefix, PrintMembers, Members, Rest, Denote, Print;
    var o := s.cells[p].info.kind == Object;
    RestStep(s, f, p, k, d);
    RestStep(s, f, p, k + 1, d);
    MembersText(s, f, p, k + 1, d, false, Break(f, d - 1) + ([Close(o)] + Rest(s, f, p, d - 1)));
  }

  /** Going back up behind the last child. */
  lemma Leave(s: State, f: Format, p: nat, d: nat)
    requires IsForest(s.cells) && p < |s.cells| && s.cells[p].kids != [] && d > 0
    ensures var x, o := s.cells[p].kids[|s.cells[p].kids| - 1], s.cells[p].info.kind == Object;
            && x < |s.cells|
            && Rest(s, f, x, d) == Break(f, d - 1) + ([Close(o)] + Rest(s, f, p, d - 1))
  {
    hide Shape, Acyclic, Break, Rest, Denote, Print;
    RestStep(s, f, p, |s.cells[p].kids| - 1, d);
    assert forall t: bytes :: [] + t == t;
  }

  // ---------- the walk ----------

  lemma StringFacts(s: State, x: nat)
    requires Inv(s) && x < |s.cells|
    ensures s.cells[x].info.kind != Invalid && InfoOk(s, s.cells[x].info)
    ensures s.cells[x].info.kind == String ==>
      var r := s.cells[x].info.payload.ref;
      Live(s, r) && Utf8.Valid(View(s, r)) && s.cells[x].info.valueFlags == Flags(View(s, r))
  {
    hide IsForest, KeysOk, Disjoint, Utf8.Valid, Flags;
    assert InfoOk(s, s.cells[x].info);
  }

  lemma KeyFacts(s: State, p: nat, c: nat)
    requires Inv(s) && p < |s.cells| && c < |s.cells| && s.cells[c].parent == p && s.cells[p].info.kind == Object
    ensures Live(s, s.cells[c].info.key) && KeyOf(s, p, c) == View(s, s.cells[c].info.key)
    ensures Utf8.Valid(KeyOf(s, p, c)) && s.cells[c].info.keyFlags == Flags(KeyOf(s, p, c))
  {
    hide IsForest, InfosOk, Disjoint, Utf8.Valid, Flags;
    assert KeyOk(s, s.cells[c]);
  }

  lemma EmptyContainer(s: State, f: Format, x: nat, d: nat, rest: bytes)
    requires IsForest(s.cells) && x < |s.cells| && IsContainer(s.cells[x].info.kind) && s.cells[x].kids == []
    ensures var o := s.cells[x].info.kind == Object;
            Print(Denote(s, x), f, d) + rest == [Open(o)] + ([Close(o)] + rest)
  {
    var o := s.cells[x].info.kind == Object;
    assert Denote(s, x) == JContainer(o, []);
    assert Print(JContainer(o, []), f, d) == [Open(o)] + [] + [Close(o)];
  }

  /** A node without children: a literal, a number, a string or a pair of brackets. */
  method WriteLeaf(w: Writer, slab: Slab, id: nat, f: Format, validate: bool, ghost d: nat, ghost rest: bytes)
    returns (r: Result<()>)
    requires w.Valid() && slab.Valid() && w.output != slab.storage
    requires id < slab.nodeCount && slab.Contents().cells[id].kids == []
    requires w.left == Print(Denote(slab.Contents(), id), f, d) + rest
    modifies w, w.output
    ensures w.Valid()
    ensures r.Ok? ==> w.left == rest
    ensures r.Err? ==> |w.goal| > w.Limit() && r.error == Error(OutputCapacityExceeded, 0)
  {
    hide Tail, Shape, Acyclic, Picture, Inv, View, Live, Utf8.Valid, Flags, Members;
    ghost var s := slab.Contents();
    InvForest(s);
    StringFacts(s, id);
    slab.NodeAt(id);
    var info := slab.nodes[id].info;
    var ok := true;
    match info.kind {
      case Invalid =>
        return Fail(InvalidHandle);
      case Null =>
        ok := w.Append(NULL_TEXT, rest);
      case Bool =>
        ok := w.Append(if info.payload.b then TRUE_TEXT else FALSE_TEXT, rest);
      case Number =>
        r := WriteNumber(w, s, info, rest);
        return;
      case String =>
        var text := slab.ViewString(info.payload.ref);
        r := WriteString(w, info.valueFlags, validate, text, rest);
        return;
      case _ =>
        EmptyContainer(s, f, id, d, rest);
        ok := w.Append([Open(info.kind == Object)], [Close(info.kind == Object)] + rest);
        if ok {
          ok := w.Append([Close(info.kind == Object)], rest);
        }
    }
    return if ok then Ok(()) else Fail(OutputCapacityExceeded);
  }

  /** What stands in front of the value of the child `c` of `p`. */
  method WriteMemberStart(w: Writer, slab: Slab, p: nat, c: nat, f: Format, depth: nat, validate: bool,
                          ghost rest: bytes) returns (r: Result<()>)
    requires w.Valid() && slab.Valid() && w.output != slab.storage
    requires p < slab.nodeCount && c < slab.nodeCount && slab.Contents().cells[c].parent == p
    requires var s := slab.Contents();
             w.left == Break(f, depth) + (Prefix(s.cells[p].info.kind == Object, KeyOf(s, p, c), f) + rest)
    modifies w, w.output
    ensures w.Valid()
    ensures r.Ok? ==> w.left == rest
    ensures r.Err? ==> |w.goal| > w.Limit() && r.error == Error(OutputCapacityExceeded, 0)
  {
    hide Tail, Shape, Acyclic, Picture, Inv, View, Live, Utf8.Valid, Flags, Members, Break, KeyOf;
    ghost var s := slab.Contents();
    slab.NodeAt(p);
    slab.NodeAt(c);
    var isObject := slab.nodes[p].info.kind == Object;
    var ok := WriteBreak(w, f, depth, Prefix(isObject, KeyOf(s, p, c), f) + rest);
    if !ok {
      return Fail(OutputCapacityExceeded);
    }
    if !isObject {
      assert [] + rest == rest;
      return Ok(());
    }
    KeyFacts(s, p, c);
    var key := slab.ViewString(slab.nodes[c].info.key);
    r := WritePrefix(w, f, validate, slab.nodes[c].info.keyFlags, key, rest);
  }

  /** A handle on a node. */
  ghost predicate IsLiveValue(v: Value)
    reads Region(v.slab)
  {
    v.slab != null && LiveHandle(v.slab.Contents(), HandleOf(v))
  }

  /** What the recursive printer makes of a handle's tree; nothing for a stale handle. */
  ghost function FullText(v: Value, f: Format): bytes
    reads Region(v.slab)
  {
    if IsLiveValue(v) && IsForest(v.slab.Contents().cells) then Print(Denote(v.slab.Contents(), v.id), f, 0) else []
  }

  /** Where the walk stands: `id` is `depth` levels below `root`, and its value comes next. */
  ghost predicate Facing(s: State, f: Format, root: nat, id: nat, depth: nat, left: bytes) {
    && Inv(s) && id < |s.cells| && root < |s.cells| && Climb(s.cells, id, depth) == root
    && left == Print(Denote(s, id), f, depth) + Rest(s, f, id, depth)
  }

  /** The same when the value of `id` is out. */
  ghost predicate Behind(s: State, f: Format, root: nat, id: nat, depth: nat, left: bytes) {
    && Inv(s) && id < |s.cells| && root < |s.cells| && Climb(s.cells, id, depth) == root
    && left == Rest(s, f, id, depth)
  }

  lemma StartFacing(s: State, f: Format, root: nat)
    requires Inv(s) && root < |s.cells|
    ensures Facing(s, f, root, root, 0, Print(Denote(s, root), f, 0))
  {
    hide Inv;
    InvForest(s);
    assert Print(Denote(s, root), f, 0) + [] == Print(Denote(s, root), f, 0);
  }

  /** Down: the bracket, then the start of the first child. */
  lemma FacingChild(s: State, f: Format, root: nat, id: nat, depth: nat, left: bytes)
    requires Facing(s, f, root, id, depth, left) && s.cells[id].kids != []
    ensures IsForest(s.cells) && IsContainer(s.cells[id].info.kind)
    ensures var c, o := s.cells[id].kids[0], s.cells[id].info.kind == Object;
            && c < |s.cells| && s.cells[c].parent == id
            && var next := Print(Denote(s, c), f, depth + 1) + Rest(s, f, c, depth + 1);
            && left == [Open(o)] + (Break(f, depth + 1) + (Prefix(o, KeyOf(s, id, c), f) + next))
            && Facing(s, f, root, c, depth + 1, next) && |next| < |left|
  {
    hide Inv, Shape, Acyclic, Print, Denote, Members, Rest, KeyOf, Break, Prefix;
    InvForest(s);
    Clone.HasKids(s, id, 0);
    Enter(s, f, id, depth);
    ClimbFirst(s.cells, s.cells[id].kids[0], depth + 1);
  }

  /** At the root the text is complete; anywhere else there is a parent above. */
  lemma BehindRoot(s: State, f: Format, root: nat, id: nat, depth: nat, left: bytes)
    requires Behind(s, f, root, id, depth, left)
    ensures id == root ==> depth == 0 && left == []
    ensures id != root ==> depth > 0
  {
    hide Inv, Shape, Acyclic;
    InvForest(s);
    if id == root {
      ClimbHome(s.cells, id, depth);
    }
  }

  lemma ParentThere(s: State, root: nat, id: nat, depth: nat)
    requires Inv(s) && id < |s.cells| && root < |s.cells| && depth > 0 && Climb(s.cells, id, depth) == root
    ensures var p := s.cells[id].parent;
            && p < |s.cells| && Climb(s.cells, p, depth - 1) == root && IsContainer(s.cells[p].info.kind)
            && exists k: nat :: k < |s.cells[p].kids| && s.cells[p].kids[k] == id
  {
    hide Acyclic, InfosOk, KeysOk, Disjoint;
    ClimbFirst(s.cells, id, depth);
    if s.cells[id].parent >= |s.cells| {
      ClimbLost(s.cells, s.cells[id].parent, depth - 1);
    }
    var k := IndexOf(s.cells[s.cells[id].parent].kids, id);
  }

  /** Over: a comma, then the start of the next sibling. */
  lemma BehindSibling(s: State, f: Format, root: nat, p: nat, k: nat, depth: nat, left: bytes)
    requires Inv(s) && p < |s.cells| && k + 1 < |s.cells[p].kids| && depth > 0
    requires Behind(s, f, root, s.cells[p].kids[k], depth, left) && s.cells[s.cells[p].kids[k]].parent == p
    ensures IsForest(s.cells)
    ensures var c, o := s.cells[p].kids[k + 1], s.cells[p].info.kind == Object;
            && c < |s.cells| && s.cells[c].parent == p
            && var next := Print(Denote(s, c), f, depth) + Rest(s, f, c, depth);
            && left == [COMMA] + (Break(f, depth) + (Prefix(o, KeyOf(s, p, c), f) + next))
            && Facing(s, f, root, c, depth, next) && |next| < |left|
  {
    hide Inv, Shape, Acyclic, Print, Denote, Members, Rest, KeyOf, Break, Prefix;
    InvForest(s);
    Sideways(s, f, p, k, depth);
    ClimbFirst(s.cells, s.cells[p].kids[k], depth);
    ClimbFirst(s.cells, s.cells[p].kids[k + 1], depth);
  }

  /** Up: the closing bracket. */
  lemma BehindLast(s: State, f: Format, root: nat, p: nat, depth: nat, left: bytes)
    requires Inv(s) && p < |s.cells| && s.cells[p].kids != [] && depth > 0
    requires var x := s.cells[p].kids[|s.cells[p].kids| - 1];
             Behind(s, f, root, x, depth, left) && s.cells[x].parent == p
    ensures IsForest(s.cells)
    ensures var o := s.cells[p].info.kind == Object;
            && left == Break(f, depth - 1) + ([Close(o)] + Rest(s, f, p, depth - 1))
            && Behind(s, f, root, p, depth - 1, Rest(s, f, p, depth - 1)) && |Rest(s, f, p, depth - 1)| < |left|
  {
    hide Inv, Shape, Acyclic, Print, Denote, Members, Rest, KeyOf, Break, Prefix;
    InvForest(s);
    Leave(s, f, p, depth);
    ClimbFirst(s.cells, s.cells[p].kids[|s.cells[p].kids| - 1], depth);
  }

  lemma KidPosition(s: State, p: nat, k: nat)
    requires Inv(s) && p < |s.cells| && k < |s.cells[p].kids|
    ensures var c := s.cells[p].kids[k];
            c < |s.cells| && s.cells[c].parent == p
                && (KidAt(s.cells[p].kids, k + 1) != INVALID_ID <==> k + 1 < |s.cells[p].kids|)
  {
    hide Acyclic, InfosOk, KeysOk, Disjoint;
  }

  /** Down to the first child. */
  method StepDown(w: Writer, slab: Slab, f: Format, validate: bool, gen: nat, ghost root: nat, id: nat, depth: nat)
    returns (r: Result<nat>)
    requires w.Valid() && slab.Valid() && w.output != slab.storage && slab.valid && gen == slab.generation
    requires Facing(slab.Contents(), f, root, id, depth, w.left) && id < slab.nodeCount && slab.cells[id].kids != []
    modifies w, w.output
    ensures w.Valid()
    ensures r.Ok? ==> Facing(slab.Contents(), f, root, r.value, depth + 1, w.left) && |w.left| < old(|w.left|)
    ensures r.Err? ==> r.error == Error(OutputCapacityExceeded, 0) && |w.goal| > w.Limit()
  {
    hide Tail, Shape, Acyclic, Picture, Inv, Rest, Print, Denote, Members, KeyOf, Break, Prefix, Facing, Writer.Valid;
    ghost var s := slab.Contents();
    FacingChild(s, f, root, id, depth, w.left);
    slab.SiblingAt(id, 0);
    var first := slab.nodes[id].firstChild;
    ghost var next := Print(Denote(s, first), f, depth + 1) + Rest(s, f, first, depth + 1);
    var isObject := slab.nodes[id].info.kind == Object;
    var ok := w.Append([Open(isObject)], Break(f, depth + 1) + (Prefix(isObject, KeyOf(s, id, first), f) + next));
    if !ok {
      return Fail(OutputCapacityExceeded);
    }
    if validate && (!slab.IsLive(first, gen) || slab.nodes[first].parent != id) {
      return Fail(InternalError);
    }
    var start := WriteMemberStart(w, slab, id, first, f, depth + 1, validate, next);
    if start.Err? {
      return Err(start.error);
    }
    return Ok(first);
  }

  /** Over to the next sibling. */
  method StepAside(w: Writer, slab: Slab, f: Format, validate: bool, gen: nat, ghost root: nat, p: nat,
                   ghost k: nat, id: nat, depth: nat) returns (r: Result<nat>)
    requires w.Valid() && slab.Valid() && w.output != slab.storage && slab.valid && gen == slab.generation
    requires Behind(slab.Contents(), f, root, id, depth, w.left) && depth > 0
    requires p < slab.nodeCount && k + 1 < |slab.cells[p].kids| && slab.cells[p].kids[k] == id
    modifies w, w.output
    ensures w.Valid()
    ensures r.Ok? ==> Facing(slab.Contents(), f, root, r.value, depth, w.left) && |w.left| < old(|w.left|)
    ensures r.Err? ==> r.error == Error(OutputCapacityExceeded, 0) && |w.goal| > w.Limit()
  {
    hide Tail, Shape, Acyclic, Picture, Inv, Rest, Print, Denote, Members, KeyOf, Break, Prefix, Facing, Behind,
         Writer.Valid;
    ghost var s := slab.Contents();
    KidPosition(s, p, k);
    BehindSibling(s, f, root, p, k, depth, w.left);
    slab.SiblingAt(p, k);
    slab.SiblingAt(p, k + 1);
    var sibling := slab.nodes[id].nextSibling;
    if validate && (!slab.IsLive(sibling, gen) || slab.nodes[sibling].parent != p) {
      return Fail(InternalError);
    }
    var isObject := slab.nodes[p].info.kind == Object;
    ghost var next := Print(Denote(s, sibling), f, depth) + Rest(s, f, sibling, depth);
    var ok := w.Append([COMMA], Break(f, depth) + (Prefix(isObject, KeyOf(s, p, sibling), f) + next));
    if !ok {
      return Fail(OutputCapacityExceeded);
    }
    var start := WriteMemberStart(w, slab, p, sibling, f, depth, validate, next);
    if start.Err? {
      return Err(start.error);
    }
    return Ok(sibling);
  }

  /** Up behind the last child. */
  method StepUp(w: Writer, slab: Slab, f: Format, ghost root: nat, p: nat, ghost id: nat, depth: nat)
    returns (r: Result<()>)
    requires w.Valid() && slab.Valid() && w.output != slab.storage
    requires Behind(slab.Contents(), f, root, id, depth, w.left) && depth > 0
    requires p < slab.nodeCount && slab.cells[p].kids != [] && slab.cells[p].kids[|slab.cells[p].kids| - 1] == id
    modifies w, w.output
    ensures w.Valid()
    ensures r.Ok? ==> Behind(slab.Contents(), f, root, p, depth - 1, w.left) && |w.left| < old(|w.left|)
    ensures r.Err? ==> r.error == Error(OutputCapacityExceeded, 0) && |w.goal| > w.Limit()
  {
    hide Tail, Shape, Acyclic, Picture, Inv, Rest, Print, Denote, Members, KeyOf, Break, Prefix, Facing, Behind,
         Writer.Valid;
    ghost var s := slab.Contents();
    KidPosition(s, p, |s.cells[p].kids| - 1);
    BehindLast(s, f, root, p, depth, w.left);
    slab.NodeAt(p);
    var isObject := slab.nodes[p].info.kind == Object;
    ghost var above := Rest(s, f, p, depth - 1);
    if f.pretty && depth == 0 {
      return Fail(InternalError);
    }
    var ok := WriteBreak(w, f, depth - 1, [Close(isObject)] + above);
    if ok {
      ok := w.Append([Close(isObject)], above);
    }
    return if ok then Ok(()) else Fail(OutputCapacityExceeded);
  }

  /** Where the walk goes when a value is out. */
  datatype Place = Finished | Onward(id: nat, depth: nat)

  /** The inner loop of Serializer::write: up until there is a next sibling, or the root is reached. */
  method Advance(w: Writer, slab: Slab, f: Format, validate: bool, gen: nat, root: nat, from: nat, level: nat)
    returns (r: Result<Place>)
    requires w.Valid() && slab.Valid() && w.output != slab.storage && slab.valid && gen == slab.generation
    requires Behind(slab.Contents(), f, root, from, level, w.left)
    modifies w, w.output
    ensures w.Valid()
    ensures r.Ok? && r.value.Finished? ==> w.left == []
    ensures r.Ok? && r.value.Onward? ==>
      Facing(slab.Contents(), f, root, r.value.id, r.value.depth, w.left) && |w.left| < old(|w.left|)
    ensures r.Err? ==> r.error == Error(OutputCapacityExceeded, 0) && |w.goal| > w.Limit()
  {
    hide Tail, Shape, Acyclic, Picture, Inv, Rest, Print, Denote, Members, Facing, Behind, Slab.Glued,
         Slab.Contents, Writer.Valid;
    slab.Counters();
    ghost var s := slab.Contents();
    var id, depth := from, level;
    while true
      invariant w.Valid() && slab.Valid() && Behind(s, f, root, id, depth, w.left) && |w.left| <= old(|w.left|)
      decreases |w.left|
    {
      BehindFacts(s, f, root, id, depth, w.left);
      if id == root {
        return Ok(Finished);
      }
      slab.NodeAt(id);
      var p := slab.nodes[id].parent;
      if validate && (!slab.IsLive(id, gen) || p == INVALID_ID) {
        return Fail(InternalError);
      }
      slab.NodeAt(p);
      if validate && (!slab.IsLive(p, gen) || !IsContainer(slab.nodes[p].info.kind)) {
        return Fail(InternalError);
      }
      ghost var k := IndexOf(s.cells[p].kids, id);
      KidPosition(s, p, k);
      slab.SiblingAt(p, k);
      if slab.nodes[id].nextSibling != INVALID_ID {
        var sibling := StepAside(w, slab, f, validate, gen, root, p, k, id, depth);
        if sibling.Err? {
          return Err(sibling.error);
        }
        return Ok(Onward(sibling.value, depth));
      }
      var up := StepUp(w, slab, f, root, p, id, depth);
      if up.Err? {
        return Err(up.error);
      }
      id, depth := p, depth - 1;
    }
  }

  /** Serializer::write: depth first along first_child, next_sibling and parent, never past the root it was given. */
  method Write(v: Value, f: Format, w: Writer, validate: bool) returns (r: Result<nat>)
    requires w.Valid() && w.written == []
    requires v.slab != null ==> v.slab.Valid() && (v.slab.valid ==> w.output != v.slab.storage)
    requires w.goal == FullText(v, f)
    requires validate || IsLiveValue(v)
    modifies w, w.output
    ensures w.Valid()
    ensures !old(IsLiveValue(v)) ==> r == Fail(InvalidHandle) && w.written == []
    ensures old(IsLiveValue(v)) && r.Ok? ==> r.value == |w.goal| && w.left == []
    ensures old(IsLiveValue(v)) && r.Err? ==> r.error == Error(OutputCapacityExceeded, 0) && |w.goal| > w.Limit()
  {
    hide Tail, Shape, Acyclic, Picture, Inv, Rest, Print, Denote, Members, Facing, Behind, Slab.Glued,
         Slab.Contents, Writer.Valid;
    if v.slab == null {
      return Fail(InvalidHandle);
    }
    var slab, root := v.slab, v.id;
    slab.Counters();
    if validate && !slab.IsLive(root, v.generation) {
      return Fail(InvalidHandle);
    }
    ghost var s := slab.Contents();
    InvForest(s);
    StartFacing(s, f, root);
    w.Finished();
    var id: nat, depth: nat := root, 0;
    while true
      invariant w.Valid() && slab.Valid() && slab.Contents() == s && Facing(s, f, root, id, depth, w.left)
      decreases |w.left|
    {
      FacingFacts(s, f, root, id, depth, w.left);
      slab.SiblingAt(id, 0);
      if validate && !slab.IsLive(id, v.generation) {
        return Fail(InternalError);
      }
      if IsContainer(slab.nodes[id].info.kind) && slab.nodes[id].firstChild != INVALID_ID {
        var child := StepDown(w, slab, f, validate, v.generation, root, id, depth);
        if child.Err? {
          return Err(child.error);
        }
        id, depth := child.value, depth + 1;
        continue;
      }
      var leaf := WriteLeaf(w, slab, id, f, validate, depth, Rest(s, f, id, depth));
      if leaf.Err? {
        return Err(leaf.error);
      }
      var place := Advance(w, slab, f, validate, v.generation, root, id, depth);
      if place.Err? {
        return Err(place.error);
      }
      if place.value.Finished? {
        w.Finished();
        return Ok(w.position);
      }
      id, depth := place.value.id, place.value.depth;
    }
  }

  lemma BehindFacts(s: State, f: Format, root: nat, id: nat, depth: nat, left: bytes)
    requires Behind(s, f, root, id, depth, left)
    ensures Inv(s) && IsForest(s.cells) && id < |s.cells|
    ensures id == root ==> left == []
    ensures id != root ==>
      && depth > 0
      && var p := s.cells[id].parent;
      && p < |s.cells| && IsContainer(s.cells[p].info.kind) && id in s.cells[p].kids
  {
    hide Inv, Shape, Acyclic, Rest;
    InvForest(s);
    BehindRoot(s, f, root, id, depth, left);
    if id != root {
      ParentThere(s, root, id, depth);
    }
  }

  lemma FacingFacts(s: State, f: Format, root: nat, id: nat, depth: nat, left: bytes)
    requires Facing(s, f, root, id, depth, left)
    ensures Inv(s) && IsForest(s.cells) && id < |s.cells|
    ensures left == Print(Denote(s, id), f, depth) + Rest(s, f, id, depth)
    ensures KidAt(s.cells[id].kids, 0) == INVALID_ID <==> s.cells[id].kids == []
    ensures !IsContainer(s.cells[id].info.kind) ==> s.cells[id].kids == []
    ensures Behind(s, f, root, id, depth, Rest(s, f, id, depth))
  {
    hide Acyclic, InfosOk, KeysOk, Disjoint, Print, Denote, Rest;
  }

  // ---------- the entry points ----------

  /** overlaps_slab: buffers are the first `size` bytes of an array. */
  predicate Overlaps(v: Value, output: array<byte>, size: nat) {
    v.slab != null && output == v.slab.storage && size > 0
  }

  /** `text`, then whatever the buffer held there before. */
  predicate Holds(now: bytes, text: bytes, before: bytes) {
    |text| <= |now| == |before| && forall i :: 0 <= i < |now| ==> now[i] == if i < |text| then text[i] else before[i]
  }

  /** No text is too long for the narrowest size_t. */
  lemma FullTextBound(v: Value, f: Format)
    requires v.slab != null ==> v.slab.Valid()
    ensures |FullText(v, f)| < SIZE_MAX
  {
    hide Inv, Denote, Print;
    if IsLiveValue(v) {
      Accounting.OutputBound(v.slab.Contents(), v.id, f);
    }
  }

  lemma FullTextSome(v: Value, f: Format)
    requires v.slab != null ==> v.slab.Valid()
    ensures IsLiveValue(v) ==> FullText(v, f) != []
  {
    hide Inv, Denote, Print, Storable;
    if IsLiveValue(v) {
      var s := v.slab.Contents();
      InvForest(s);
      Accounting.DenoteStorable(s, v.id);
      PrintSome(Denote(s, v.id), f, 0);
    }
  }

  /** serialized_size and serialized_size_pretty: never an error for a live handle. */
  method Measure(v: Value, f: Format) returns (r: Result<nat>)
    requires v.slab != null ==> v.slab.Valid()
    ensures r == if IsLiveValue(v) then Ok(|FullText(v, f)|) else Fail(InvalidHandle)
  {
    hide Tail, Shape, Picture, Inv, Print, Denote, Writer.Valid;
    var nothing := new byte[0];
    FullTextBound(v, f);
    var w := new Writer(Counting, nothing, 0, FullText(v, f));
    r := Write(v, f, w, true);
  }

  /** serialize_partial and serialize_pretty_partial: a prefix of the text, all of it if it fits. */
  method SerializePartial(v: Value, output: array<byte>, size: nat, f: Format) returns (r: Result<nat>)
    requires (v.slab != null ==> v.slab.Valid()) && size <= output.Length
    modifies output
    ensures r.Ok? <==> old(IsLiveValue(v)) && |old(FullText(v, f))| <= size && output != v.slab.storage
    ensures Overlaps(v, output, size) ==> r == Fail(InvalidArgument) && output[..] == old(output[..])
    ensures !Overlaps(v, output, size) && !old(IsLiveValue(v)) ==>
      r == Fail(InvalidHandle) && output[..] == old(output[..])
    ensures !Overlaps(v, output, size) && old(IsLiveValue(v)) ==>
      var full := old(FullText(v, f));
      && (r.Ok? <==> |full| <= size)
      && (r.Ok? ==> r.value == |full| && Holds(output[..], full, old(output[..])))
      && (r.Err? ==> r.error == Error(OutputCapacityExceeded, 0) && exists n: nat ::
            n <= |full| && n <= size && Holds(output[..], full[..n], old(output[..])))
  {
    hide Tail, Shape, Picture, Inv, Print, Denote;
    FullTextSome(v, f);
    if Overlaps(v, output, size) {
      return Fail(InvalidArgument);
    }
    FullTextBound(v, f);
    ghost var goal := FullText(v, f);
    var buffer := output;
    if size == 0 {
      // An empty span shares no byte with anything, wherever it starts.
      buffer := new byte[0];
    }
    var w := new Writer(Checked, buffer, size, goal);
    r := Write(v, f, w, true);
    assert w.written == goal[..|w.written|];
    assert Holds(output[..], goal[..|w.written|], old(output[..]));
  }

  /** write_prevalidated_to. */
  method WritePrevalidated(v: Value, output: array<byte>, f: Format) returns (r: Result<nat>)
    requires v.slab != null && v.slab.Valid() && IsLiveValue(v) && |FullText(v, f)| <= output.Length
    modifies output
    ensures Overlaps(v, output, output.Length) ==> r == Fail(InvalidArgument) && output[..] == old(output[..])
    ensures !Overlaps(v, output, output.Length) ==>
      var full := old(FullText(v, f));
      r == Ok(|full|) && Holds(output[..], full, old(output[..]))
  {
    hide Tail, Shape, Picture, Inv, Print, Denote;
    if Overlaps(v, output, output.Length) {
      return Fail(InvalidArgument);
    }
    FullTextBound(v, f);
    var w := new Writer(Unchecked, output, output.Length, FullText(v, f));
    r := Write(v, f, w, false);
  }

  /** serialize and serialize_pretty: all or nothing. */
  method Serialize(v: Value, output: array<byte>, f: Format) returns (r: Result<nat>)
    requires v.slab != null ==> v.slab.Valid()
    modifies output
    ensures r.Ok? <==>
      old(IsLiveValue(v)) && |old(FullText(v, f))| <= output.Length && output != v.slab.storage
    ensures r.Ok? ==> var full := old(FullText(v, f)); r.value == |full| && Holds(output[..], full, old(output[..]))
    ensures r.Err? ==> output[..] == old(output[..])
    ensures r.Err? ==> r.error == Error(
      if !old(IsLiveValue(v)) then InvalidHandle
      else if |old(FullText(v, f))| > output.Length then OutputCapacityExceeded
      else InvalidArgument, 0)
  {
    hide Tail, Shape, Picture, Inv, Print, Denote, Holds;
    ghost var full := FullText(v, f);
    FullTextSome(v, f);
    var size := Measure(v, f);
    assert FullText(v, f) == full;
    if size.Err? {
      return Err(size.error);
    }
    if size.value > output.Length {
      return Fail(OutputCapacityExceeded);
    }
    r := WritePrevalidated(v, output, f);
  }
}

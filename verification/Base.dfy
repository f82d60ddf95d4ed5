/** Bytes, error codes and the result types shared by every module. */
module Base {

  type byte = b: int | 0 <= b < 256
  type bytes = seq<byte>

  datatype Option<+T> = None | Some(value: T) {
    predicate IsFailure() { None? }

    function PropagateFailure<U>(): Option<U>
      requires None?
    {
      None
    }

    function Extract(): T
      requires Some?
    {
      value
    }
  }

  datatype ErrorCode =
    | NoError
    | InvalidArgument
    | InvalidHandle
    | TypeMismatch
    | NotFound
    | AlreadyAttached
    | CrossSlab
    | CycleDetected
    | InvalidUtf8
    | NonFiniteNumber
    | OutOfMemory
    | StringCapacityExceeded
    | ParserDepthExceeded
    | OutputCapacityExceeded
    | ParseUnexpectedEnd
    | ParseUnexpectedToken
    | ParseInvalidString
    | ParseInvalidNumber
    | ParseInvalidEscape
    | ParseInvalidUnicodeEscape
    | ParseTrailingCharacters
    | InternalError

  datatype Error = Error(code: ErrorCode, offset: nat)

  const NO_ERROR: Error := Error(NoError, 0)

  datatype Result<+T> = Ok(value: T) | Err(error: Error) {
    predicate IsFailure() { Err? }

    function PropagateFailure<U>(): Result<U>
      requires Err?
    {
      Err(error)
    }

    function Extract(): T
      requires Ok?
    {
      value
    }
  }

  /** A failure that carries no offset, as most of the library's do. */
  function Fail<T>(code: ErrorCode): Result<T> {
    Err(Error(code, 0))
  }

  /** `t` occurs in `input` at position `i`. */
  predicate At(input: bytes, i: nat, t: bytes): (r: bool)
    ensures r ==> i + |t| <= |input|
    decreases |t|
  {
    if t == [] then i <= |input| else i < |input| && input[i] == t[0] && At(input, i + 1, t[1..])
  }

  lemma AtFirst(input: bytes, i: nat, t: bytes)
    requires At(input, i, t) && t != []
    ensures i < |input| && input[i] == t[0]
  {
  }

  lemma AtByte(input: bytes, i: nat, b: byte)
    ensures At(input, i, [b]) <==> i < |input| && input[i] == b
  {
  }

  lemma NothingAt(input: bytes, i: nat)
    ensures At(input, i, []) <==> i <= |input|
  {
  }

  lemma {:induction false} AtConcat(input: bytes, i: nat, a: bytes, b: bytes)
    ensures At(input, i, a + b) <==> At(input, i, a) && At(input, i + |a|, b)
    decreases |a|
  {
    if a == [] {
      assert a + b == b;
    } else {
      assert (a + b)[1..] == a[1..] + b;
      AtConcat(input, i + 1, a[1..], b);
    }
  }

  /** Occurrence as equality of a slice. */
  lemma {:induction false} AtIsSlice(input: bytes, i: nat, t: bytes)
    ensures At(input, i, t) <==> i + |t| <= |input| && input[i..i + |t|] == t
    decreases |t|
  {
    if t != [] {
      AtIsSlice(input, i + 1, t[1..]);
      if i + |t| <= |input| {
        assert input[i..i + |t|] == [input[i]] + input[i + 1..i + |t|];
        assert t == [t[0]] + t[1..];
      }
    }
  }

  /** `a` is the end of `b`. */
  predicate IsSuffix(a: bytes, b: bytes) {
    |a| <= |b| && b[|b| - |a|..] == a
  }

  lemma SuffixTransitive(a: bytes, b: bytes, c: bytes)
    requires IsSuffix(a, b) && IsSuffix(b, c)
    ensures IsSuffix(a, c)
  {
    assert c[|c| - |a|..] == c[|c| - |b|..][|b| - |a|..];
  }

  lemma SuffixConcat(a: bytes, b: bytes)
    ensures IsSuffix(b, a + b)
  {
    assert (a + b)[|a|..] == b;
  }

  lemma SuffixSelf(a: bytes)
    ensures IsSuffix(a, a)
  {
    assert a[0..] == a;
  }

  lemma SuffixLength(a: bytes, b: bytes)
    requires IsSuffix(a, b)
    ensures |a| <= |b|
    ensures |a| == |b| ==> a == b
  {
  }

  /** The last `n` bytes. */
  function Tail(s: bytes, n: nat): (t: bytes)
    requires n <= |s|
    ensures |t| == n
  {
    s[|s| - n..]
  }

  lemma TailGrows(before: bytes, now: bytes, n: nat, data: bytes)
    requires n + |data| <= |before| == |now|
    requires forall i :: |before| - n <= i < |before| ==> now[i] == before[i]
    requires forall i :: 0 <= i < |data| ==> now[|now| - n - |data| + i] == data[i]
    ensures Tail(now, n + |data|) == data + Tail(before, n)
  {
  }

  lemma TailShrinks(all: bytes, n: nat, before: bytes)
    requires n <= |all| && IsSuffix(before, Tail(all, n))
    ensures |before| <= n && Tail(all, |before|) == before
  {
    assert Tail(all, n)[n - |before|..] == all[|all| - |before|..];
  }

  lemma TailNone(all: bytes)
    ensures Tail(all, 0) == []
  {
  }

  lemma TailAt(all: bytes, n: nat, i: nat, j: nat)
    requires n <= |all| && i <= j <= n
    ensures Tail(all, n)[i..j] == all[|all| - n + i..|all| - n + j]
  {
  }

  function Section(s: bytes, i: nat, j: nat): (r: bytes)
    requires i <= j <= |s|
    ensures |r| == j - i
  {
    s[i..j]
  }

  lemma Associate<T>(a: seq<T>, b: seq<T>, c: seq<T>)
    ensures (a + b) + c == a + (b + c)
  {
  }
}

/** The transactional parser: two-phase strings, numbers, and nested containers planted as they are read. */
module Parse {
  import opened Base
  import opened Json
  import opened Forest
  import opened Links
  import opened Dom
  import opened Ops
  import opened Build
  import opened Text
  import opened Strings
  import opened Numbers
  import opened Grammar
  import opened Spec
  import opened Slabs
  import RoundTrip
  import Utf8

  const MAX_PARSER_DEPTH: nat := 32

  // ---------- strings, first phase: measuring ----------

  /** Parser::StringScan. */
  datatype Scan = Scan(end: nat, decodedLength: nat, hasEscape: bool, flags: nat)

  /**
   * One escape or character as the scanner sees it: where the next one starts, how long it decodes, whether it
   * needs escaping.
   */
  datatype Step = Step(next: nat, length: nat, special: bool)

  predicate IsSpecial(codePoint: nat) {
    codePoint == 34 || codePoint == 92 || codePoint < 0x20
  }

  lemma EncodeFlags(codePoint: nat)
    requires codePoint <= 0x10FFFF
    ensures Flags(Utf8.Encode(codePoint)) == if IsSpecial(codePoint) then 1 else 0
  {
    var c := Utf8.Encode(codePoint);
    if codePoint <= 0x7F {
      assert c[0] in c;
      assert forall b :: b in c ==> b == codePoint;
    } else {
      assert forall b :: b in c ==> b >= 0x80;
    }
  }

  /** Bytes of longer characters never need escaping; nor do plain ASCII bytes. */
  lemma PlainFlags(c: bytes)
    requires Utf8.IsChar(c) && c[0] >= 0x20 && c[0] != QUOTE && c[0] != BACKSLASH
    ensures Flags(c) == 0
  {
    assert forall b :: b in c ==> b == c[0] || b >= 0x80;
  }

  /** The scanner's measurements are those of the character that is read. */
  ghost predicate Measures(step: Step, unit: Option<(bytes, nat)>) {
    && unit.Some? && step.next == unit.value.1 && step.length == |unit.value.0|
    && Flags(unit.value.0) == if step.special then 1 else 0
  }

  /** `i` is where reading goes on when `done` has been decoded from `start` on. */
  ghost predicate Resumes(input: bytes, start: nat, done: bytes, i: nat) {
    && start <= i <= |input|
    && ReadString(input, start).Some? == ReadString(input, i).Some?
    && (ReadString(input, start).Some? ==>
          && ReadString(input, start).value.0 == done + ReadString(input, i).value.0
          && ReadString(input, start).value.1 == ReadString(input, i).value.1)
  }

  lemma ResumesFirst(input: bytes, start: nat)
    requires start <= |input|
    ensures Resumes(input, start, [], start)
  {
    if ReadString(input, start).Some? {
      var text := ReadString(input, start).value.0;
      assert [] + text == text;
    }
  }

  lemma ResumesNext(input: bytes, start: nat, done: bytes, i: nat)
    requires Resumes(input, start, done, i) && i < |input| && input[i] != QUOTE && ReadUnit(input, i).Some?
    ensures Resumes(input, start, done + ReadUnit(input, i).value.0, ReadUnit(input, i).value.1)
  {
    hide ReadString, ReadUnit;
    StringStep(input, i);
    var next := ReadUnit(input, i).value.1;
    if ReadString(input, next).Some? {
      Associate(done, ReadUnit(input, i).value.0, ReadString(input, next).value.0);
    }
  }

  /** Reading ends at the closing quote, and fails at the end of the input and where no character can be read. */
  lemma ResumesEnd(input: bytes, start: nat, done: bytes, i: nat)
    requires Resumes(input, start, done, i)
    ensures i < |input| && input[i] == QUOTE ==>
      ReadString(input, start).Some? && ReadString(input, start).value.0 == done
          && ReadString(input, start).value.1 == i + 1
    ensures i == |input| ==> ReadString(input, start).None?
    ensures i < |input| && input[i] != QUOTE && ReadUnit(input, i).None? ==> ReadString(input, start).None?
    ensures ReadString(input, start).Some? ==> |done| <= |ReadString(input, start).value.0|
  {
    hide ReadUnit;
    assert done + [] == done;
  }

  /** The number the first `n` hexadecimal digits spell. */
  function HexPrefix(h: bytes, n: nat): int
    requires n <= |h|
  {
    if n == 0 then 0 else HexPrefix(h, n - 1) * 16 + HexValue(h[n - 1])
  }

  lemma HexPrefixFour(h: bytes)
    requires IsHex4(h)
    ensures HexPrefix(h, 4) == Hex4(h)
  {
    assert HexPrefix(h, 1) == HexValue(h[0]);
    assert HexPrefix(h, 2) == HexPrefix(h, 1) * 16 + HexValue(h[1]);
    assert HexPrefix(h, 3) == HexPrefix(h, 2) * 16 + HexValue(h[2]);
  }

  /** What write operations do to the storage: `data` stands at `at`, everything else is as before. */
  predicate Patched(before: bytes, now: bytes, at: nat, data: bytes) {
    && at + |data| <= |now| == |before|
    && forall i :: 0 <= i < |now| ==> now[i] == if at <= i < at + |data| then data[i - at] else before[i]
  }

  lemma PatchedTwice(a: bytes, b: bytes, c: bytes, at: nat, x: bytes, y: bytes)
    requires Patched(a, b, at, x) && Patched(b, c, at + |x|, y)
    ensures Patched(a, c, at, x + y)
  {
  }

  /** A number and the position behind it. */
  function ReadNumeric(fp: FloatReader, input: bytes, p: nat): Option<(Json, nat)>
    requires p < |input|
  {
    var n :- ReadNumber(input, p);
    var j :- Convert(fp, Section(input, p, n.1), n.0 != n.1);
    Some((j, n.1))
  }

  predicate IsMemory(code: ErrorCode) {
    code == OutOfMemory || code == StringCapacityExceeded
  }

  /**
   * What parsing a piece of text does to a slab. It succeeds exactly if the text reads as a value and that value fits;
   * then the value is planted. A failure leaves everything that was there, and is about memory if the text was right.
   */
  ghost predicate Parsed(s: State, t: State, read: Option<(Json, nat)>, ok: bool, code: ErrorCode, end: nat) {
    if ok then
      read.Some? && end == read.value.1 && Footprint(read.value.0) <= Remaining(s) && t == Plant(s, read.value.0)
    else
      code != NoError && Extends(s, t) && (read.Some? ==> IsMemory(code) && Footprint(read.value.0) > Remaining(s))
  }

  /** A member and the position behind its value. */
  function ReadMember(fp: FloatReader, input: bytes, i: nat, fuel: nat, o: bool): Option<(Member, nat)>
    requires i < |input|
  {
    var key :- ReadKey(input, i, o);
    var v :- ReadValue(fp, input, key.1, fuel);
    Some((Member(key.0, v.0), v.1))
  }

  /** The same for the key of a member, if it has one. */
  ghost predicate KeyParsed(s: State, t: State, read: Option<(bytes, nat)>, o: bool, ok: bool, code: ErrorCode,
                            end: nat) {
    if ok then read.Some? && end == read.value.1 && |read.value.0| <= Remaining(s) && t == PlantKey(s, o, read.value.0)
    else code != NoError && Extends(s, t) && (read.Some? ==> IsMemory(code) && |read.value.0| > Remaining(s))
  }

  /** And for a member below `p`. */
  ghost predicate MemberParsed(s: State, t: State, p: nat, o: bool, read: Option<(Member, nat)>, ok: bool,
                               code: ErrorCode, end: nat)
    requires p < |s.cells|
  {
    if ok then
      && read.Some? && end == read.value.1 && t == PlantMember(s, p, o, read.value.0)
      && |read.value.0.key| + Footprint(read.value.0.value) <= Remaining(s)
    else
      && code != NoError && Extends(s, t)
      && (read.Some? ==> IsMemory(code) && |read.value.0.key| + Footprint(read.value.0.value) > Remaining(s))
  }

  function CodeOf<T>(r: Result<T>): ErrorCode {
    if r.Err? then r.error.code else NoError
  }

  /** with_offset. */
  function WithOffset<T>(r: Result<T>, offset: nat): Result<T> {
    if r.Err? then Err(Error(r.error.code, offset)) else r
  }

  /** What parse does: planted or untouched, and planted exactly if the text is right and its value fits. */
  ghost predicate ParsedText(s: State, fp: FloatReader, input: bytes, maxDepth: nat, trailing: bool,
                             overlaps: bool, t: State, r: Result<nat>) {
    if !s.valid || maxDepth > MAX_PARSER_DEPTH || overlaps then r == Fail(InvalidArgument) && t == s
    else
      var document := ReadDocument(fp, input, maxDepth, trailing);
      && (r.Ok? <==> document.Some? && Footprint(document.value) <= Remaining(s))
      && (r.Ok? ==> r.value == |s.cells| && t == Plant(s, document.value))
      && (r.Err? ==> t == s && r.error.code != NoError && r.error.offset <= |input|)
      && (r.Err? && document.Some? ==> IsMemory(r.error.code))
  }

  /** `at` is the first of four digits from `offset` on that is not hexadecimal. */
  predicate FirstBadDigit(input: bytes, offset: nat, at: nat) {
    && offset <= at < offset + 4 <= |input| && HexValue(input[at]) < 0
    && forall k :: offset <= k < at ==> HexValue(input[k]) >= 0
  }

  /** `at` is the first position at which the literal at `start` is not there, or the input ends. */
  predicate FirstMismatch(input: bytes, start: nat, literal: bytes, at: nat) {
    && start <= at < start + |literal| && at <= |input|
    && (at < |input| ==> input[at] != literal[at - start])
    && forall k :: start <= k < at ==> input[k] == literal[k - start]
  }

  class Parser {
    const slab: Slab
    const input: bytes
    const maxDepth: nat
    const trailing: bool
    /** Whether the input shares bytes with the slab. */
    const overlaps: bool
    const fp: FloatReader
    var position: nat

    constructor (slab: Slab, input: bytes, maxDepth: nat, trailing: bool, overlaps: bool, fp: FloatReader)
      ensures this.slab == slab && this.input == input && this.maxDepth == maxDepth && this.trailing == trailing
      ensures this.overlaps == overlaps && this.fp == fp && position == 0
    {
      this.slab, this.input, this.maxDepth, this.trailing := slab, input, maxDepth, trailing;
      this.overlaps, this.fp, position := overlaps, fp, 0;
    }

    /** parse_hex4. */
    method ParseHex4(offset: nat) returns (r: Result<nat>)
      requires offset <= |input|
      ensures r.Ok? ==> ReadHex(input, offset) == Some(r.value)
      ensures r.Err? ==>
        ReadHex(input, offset).None? && r.error.code == ParseInvalidUnicodeEscape && r.error.offset <= |input|
      ensures r.Err? && offset + 4 > |input| ==> r.error.offset == offset
      ensures r.Err? && offset + 4 <= |input| ==> FirstBadDigit(input, offset, r.error.offset)
    {
      hide HexValue, Hex4;
      if offset + 4 > |input| {
        return Err(Error(ParseInvalidUnicodeEscape, offset));
      }
      ghost var h := input[offset..offset + 4];
      var value: int := 0;
      for index := 0 to 4
        invariant forall k :: 0 <= k < index ==> HexValue(h[k]) >= 0
        invariant value == HexPrefix(h, index) && value >= 0
      {
        assert h[index] == input[offset + index] && forall k :: 0 <= k < 4 ==> h[k] == input[offset + k];
        var digit := HexValue(input[offset + index]);
        if digit < 0 {
          return Err(Error(ParseInvalidUnicodeEscape, offset + index));
        }
        value := value * 16 + digit;
      }
      HexPrefixFour(h);
      return Ok(value);
    }

    /** The `u` escapes of scan_string; `cursor` is at the letter. */
    method ScanUnicode(cursor: nat) returns (r: Result<Step>)
      requires 0 < cursor < |input| && input[cursor] == 117
      ensures r.Ok? ==> Measures(r.value, ReadUnicode(input, cursor + 1))
      ensures r.Err? ==> ReadUnicode(input, cursor + 1).None?
      ensures r.Err? ==> r.error.code == ParseInvalidUnicodeEscape && r.error.offset <= |input|
    {
      hide ReadHex, Flags, Utf8.Encode;
      var escapeOffset := cursor - 1;
      var unit := ParseHex4(cursor + 1);
      if unit.Err? {
        return Err(unit.error);
      }
      var codePoint, next := unit.value, cursor + 5;
      HexRange(input, cursor + 1);
      if 0xD800 <= codePoint <= 0xDBFF {
        if next + 6 > |input| || input[next] != BACKSLASH || input[next + 1] != 117 {
          return Err(Error(ParseInvalidUnicodeEscape, escapeOffset));
        }
        var low := ParseHex4(next + 2);
        if low.Err? {
          return Err(low.error);
        }
        if low.value < 0xDC00 || low.value > 0xDFFF {
          return Err(Error(ParseInvalidUnicodeEscape, next));
        }
        codePoint := 0x10000 + (codePoint - 0xD800) * 1024 + (low.value - 0xDC00);
        next := next + 6;
      } else if 0xDC00 <= codePoint <= 0xDFFF {
        return Err(Error(ParseInvalidUnicodeEscape, escapeOffset));
      }
      EncodeFlags(codePoint);
      return Ok(Step(next, Utf8.EncodedLength(codePoint), IsSpecial(codePoint)));
    }

    /** One step of scan_string, at anything but a quote. */
    method ScanUnit(cursor: nat) returns (r: Result<Step>)
      requires cursor < |input| && input[cursor] != QUOTE
      ensures r.Ok? ==> Measures(r.value, ReadUnit(input, cursor))
      ensures r.Err? ==> ReadUnit(input, cursor).None?
      ensures r.Err? ==> r.error.offset <= |input|
      ensures r.Err? ==>
        r.error.code in {ParseInvalidString, ParseUnexpectedEnd, ParseInvalidUnicodeEscape, ParseInvalidEscape}
    {
      hide ReadUnicode, Flags, Utf8.IsChar, Utf8.CharLength, Measures;
      var b := input[cursor];
      if b < 0x20 {
        return Err(Error(ParseInvalidString, cursor));
      }
      if b == BACKSLASH {
        if cursor + 1 == |input| {
          return Err(Error(ParseUnexpectedEnd, cursor + 1));
        }
        var letter := input[cursor + 1];
        if letter == 117 {
          r := ScanUnicode(cursor + 1);
          return;
        }
        if letter in {QUOTE, BACKSLASH, 98, 102, 110, 114, 116} {
          ShortMeasures(input, cursor, true);
          return Ok(Step(cursor + 2, 1, true));
        }
        if letter == 47 {
          ShortMeasures(input, cursor, false);
          return Ok(Step(cursor + 2, 1, false));
        }
        return Err(Error(ParseInvalidEscape, cursor + 1));
      }
      PlainMeasures(input, cursor);
      if b < 0x80 {
        return Ok(Step(cursor + 1, 1, false));
      }
      var sequence := Utf8.SequenceLength(input, cursor);
      if sequence.Err? {
        return Err(Error(ParseInvalidString, sequence.error.offset));
      }
      return Ok(Step(cursor + sequence.value, sequence.value, false));
    }

    /** scan_string: everything about a string but its bytes. */
    method ScanString(start: nat) returns (r: Result<Scan>)
      requires start < |input|
      ensures r.Ok? ==> ReadString(input, start + 1).Some?
      ensures r.Ok? ==>
        var text := ReadString(input, start + 1).value;
        && r.value.end == text.1 && r.value.decodedLength == |text.0| && r.value.flags == Flags(text.0)
        && start + 2 <= r.value.end
        && (!r.value.hasEscape ==> text.0 == Section(input, start + 1, r.value.end - 1))
      ensures r.Err? && ReadString(input, start + 1).Some? ==>
        r.error.code == StringCapacityExceeded && |ReadString(input, start + 1).value.0| > 65535
      ensures r.Err? ==> r.error.offset <= |input| && r.error.code != NoError
    {
      hide ReadString, ReadUnit, Flags, Section;
      var cursor, decodedLength, hasEscape, flags := start + 1, 0, false, 0;
      ghost var done: bytes := [];
      ResumesFirst(input, start + 1);
      NothingRun(input, start + 1);
      while cursor < |input|
        invariant start + 1 <= cursor && Resumes(input, start + 1, done, cursor)
        invariant decodedLength == |done| && flags == Flags(done)
        invariant !hasEscape ==> done == Section(input, start + 1, cursor)
      {
        ResumesEnd(input, start + 1, done, cursor);
        if input[cursor] == QUOTE {
          return Ok(Scan(cursor + 1, decodedLength, hasEscape, flags));
        }
        var step := ScanUnit(cursor);
        if step.Err? {
          return Err(step.error);
        }
        ResumesNext(input, start + 1, done, cursor);
        ghost var unit := ReadUnit(input, cursor).value.0;
        FlagsConcat(done, unit);
        FlagsValue(done);
        if input[cursor] == BACKSLASH {
          hasEscape := true;
        } else {
          RunNext(input, start + 1, cursor);
        }
        if step.value.special {
          flags := 1;
        }
        decodedLength := decodedLength + step.value.length;
        cursor := step.value.next;
        done := done + unit;
        if decodedLength > 65535 {
          ResumesEnd(input, start + 1, done, cursor);
          return Err(Error(StringCapacityExceeded, start));
        }
      }
      ResumesEnd(input, start + 1, done, cursor);
      return Err(Error(ParseUnexpectedEnd, |input|));
    }

    // ---------- strings, second phase: decoding in place ----------

    /** encode_utf8. */
    method EncodeUtf8(codePoint: nat, at: nat) returns (n: nat)
      requires codePoint <= 0x10FFFF && at + Utf8.EncodedLength(codePoint) <= slab.storage.Length
      modifies slab.storage
      ensures n == Utf8.EncodedLength(codePoint)
      ensures Patched(old(slab.storage[..]), slab.storage[..], at, Utf8.Encode(codePoint))
    {
      var storage := slab.storage;
      if codePoint <= 0x7F {
        storage[at] := codePoint;
        return 1;
      }
      if codePoint <= 0x7FF {
        storage[at] := 0xC0 + codePoint / 64;
        storage[at + 1] := 0x80 + codePoint % 64;
        return 2;
      }
      if codePoint <= 0xFFFF {
        storage[at] := 0xE0 + codePoint / 4096;
        storage[at + 1] := 0x80 + (codePoint / 64) % 64;
        storage[at + 2] := 0x80 + codePoint % 64;
        return 3;
      }
      storage[at] := 0xF0 + codePoint / 262144;
      storage[at + 1] := 0x80 + (codePoint / 4096) % 64;
      storage[at + 2] := 0x80 + (codePoint / 64) % 64;
      storage[at + 3] := 0x80 + codePoint % 64;
      return 4;
    }

    /** parse_hex4_unchecked. */
    method ParseHex4Unchecked(offset: nat) returns (value: nat)
      requires ReadHex(input, offset).Some?
      ensures value == ReadHex(input, offset).value
    {
      hide HexValue, Hex4;
      HexDigits(input, offset);
      ghost var h := input[offset..offset + 4];
      value := 0;
      for index := 0 to 4
        invariant value == HexPrefix(h, index)
      {
        assert h[index] == input[offset + index];
        value := value * 16 + HexValue(input[offset + index]);
      }
      HexPrefixFour(h);
    }

    /** One step of decode_string. */
    method DecodeUnit(cursor: nat, at: nat) returns (next: nat, n: nat)
      requires cursor < |input| && ReadUnit(input, cursor).Some?
      requires at + |ReadUnit(input, cursor).value.0| <= slab.storage.Length
      modifies slab.storage
      ensures next == ReadUnit(input, cursor).value.1 && n == |ReadUnit(input, cursor).value.0|
      ensures Patched(old(slab.storage[..]), slab.storage[..], at, ReadUnit(input, cursor).value.0)
    {
      hide Utf8.IsChar, Utf8.CharLength, ReadHex, Utf8.Encode;
      var storage := slab.storage;
      var b := input[cursor];
      if b == BACKSLASH {
        var letter := input[cursor + 1];
        if letter == 117 {
          var codePoint := ParseHex4Unchecked(cursor + 2);
          HexRange(input, cursor + 2);
          next := cursor + 6;
          if 0xD800 <= codePoint <= 0xDBFF {
            var low := ParseHex4Unchecked(next + 2);
            next := next + 6;
            codePoint := 0x10000 + (codePoint - 0xD800) * 1024 + (low - 0xDC00);
          }
          n := EncodeUtf8(codePoint, at);
          return;
        }
        storage[at] :=
          if letter == 98 then 8
          else if letter == 102 then 12
          else if letter == 110 then 10
          else if letter == 114 then 13
          else if letter == 116 then 9
          else letter;
        return cursor + 2, 1;
      }
      PlainLength(input, cursor);
      if b < 0x80 {
        storage[at] := b;
        return cursor + 1, 1;
      }
      n := Utf8.UncheckedLength(b);
      forall i | 0 <= i < n {
        storage[at + i] := input[cursor + i];
      }
      return cursor + n, n;
    }

    /** decode_string: fills exactly the bytes that scan_string counted. */
    method DecodeString(start: nat, end: nat, offset: nat)
      requires start < |input| && ReadString(input, start + 1).Some? && ReadString(input, start + 1).value.1 == end
      requires offset + |ReadString(input, start + 1).value.0| <= slab.storage.Length
      modifies slab.storage
      ensures Patched(old(slab.storage[..]), slab.storage[..], offset, ReadString(input, start + 1).value.0)
    {
      hide ReadString, ReadUnit, Patched;
      var output, cursor, contentEnd := 0, start + 1, end - 1;
      ghost var done: bytes := [];
      ResumesFirst(input, start + 1);
      NothingPatched(slab.storage[..], offset);
      EndsAtQuote(input, start + 1, done, cursor);
      while cursor < contentEnd
        invariant Resumes(input, start + 1, done, cursor) && cursor <= contentEnd
        invariant output == |done|
        invariant Patched(old(slab.storage[..]), slab.storage[..], offset, done)
        decreases contentEnd - cursor
      {
        EndsAtQuote(input, start + 1, done, cursor);
        ResumesNext(input, start + 1, done, cursor);
        ghost var unit := ReadUnit(input, cursor).value.0;
        ghost var before := slab.storage[..];
        EndsAtQuote(input, start + 1, done + unit, ReadUnit(input, cursor).value.1);
        var next, n := DecodeUnit(cursor, offset + output);
        PatchedTwice(old(slab.storage[..]), before, slab.storage[..], offset, done, unit);
        cursor := next;
        output := output + n;
        done := done + unit;
      }
      EndsAtQuote(input, start + 1, done, cursor);
    }

    /** The slab can take nodes, and the cursor is inside the input. */
    ghost predicate Ready()
      reads this, slab, slab.storage, slab.nodes
    {
      position <= |input| && slab.valid && slab.Glued()
    }

    /** The second phase: a raw copy when there is no escape, decoding otherwise. */
    method FillString(start: nat, scan: Scan, offset: nat)
      requires start < |input| && ReadString(input, start + 1).Some?
      requires var text := ReadString(input, start + 1).value;
        && scan.end == text.1 && scan.decodedLength == |text.0| && start + 2 <= scan.end
        && (!scan.hasEscape ==> text.0 == Section(input, start + 1, scan.end - 1))
        && offset + |text.0| <= slab.storage.Length
      modifies slab.storage
      ensures Patched(old(slab.storage[..]), slab.storage[..], offset, ReadString(input, start + 1).value.0)
    {
      hide ReadString, Patched, Section;
      if !scan.hasEscape {
        forall i | 0 <= i < scan.end - start - 2 {
          slab.storage[offset + i] := input[start + 1 + i];
        }
        CopiedRun(old(slab.storage[..]), slab.storage[..], offset, input, start + 1, scan.end - 1);
      } else {
        DecodeString(start, scan.end, offset);
      }
    }

    /** parse_string, at the opening quote: the decoded bytes go in front of all earlier strings. */
    method ParseString() returns (r: Result<(StringRef, nat)>)
      requires Ready() && position < |input| && input[position] == QUOTE
      modifies this, slab`stringBytesUsed, slab.storage
      ensures Ready()
      ensures r.Ok? ==> ReadString(input, old(position) + 1).Some?
      ensures r.Ok? ==>
        var text := ReadString(input, old(position) + 1).value;
        && |text.0| <= Remaining(old(slab.Contents())) && slab.Contents() == AddString(old(slab.Contents()), text.0)
        && r.value.0 == NewRef(old(slab.Contents()), text.0) && r.value.1 == Flags(text.0)
        && position == text.1
      ensures r.Err? ==> slab.Contents() == old(slab.Contents()) && r.error.offset <= |input| && r.error.code != NoError
      ensures r.Err? && ReadString(input, old(position) + 1).Some? ==>
        r.error.code == StringCapacityExceeded
            && |ReadString(input, old(position) + 1).value.0| > Remaining(old(slab.Contents()))
    {
      hide Tail, Shape, Picture, ReadString, Flags, Patched, AddString, Section;
      var start := position;
      var scanned := ScanString(start);
      if scanned.Err? {
        slab.Counters();
        return Err(scanned.error);
      }
      var allocation := slab.AllocateString(scanned.value.decodedLength);
      if allocation.Err? {
        return Err(Error(allocation.error.code, start));
      }
      var ref := allocation.value;
      ghost var text := ReadString(input, start + 1).value.0;
      FillString(start, scanned.value, ref.offset);
      PatchedTail(old(slab.storage[..]), slab.storage[..], old(slab.stringBytesUsed), text);
      position := scanned.value.end;
      AddedString(old(slab.Contents()), text, slab.Contents());
      return Ok((ref, scanned.value.flags));
    }

    // ---------- tokens ----------

    /** skip_whitespace. */
    method SkipWhitespace()
      requires position <= |input|
      modifies this
      ensures position == SkipBlank(input, old(position))
    {
      while position < |input|
        invariant position <= |input| && SkipBlank(input, old(position)) == SkipBlank(input, position)
      {
        if !IsBlank(input[position]) {
          return;
        }
        position := position + 1;
      }
    }

    /** consume_literal. */
    method ConsumeLiteral(literal: bytes) returns (r: Result<()>)
      requires position <= |input|
      modifies this
      ensures r.Ok? <==> At(input, old(position), literal)
      ensures position == if r.Ok? then old(position) + |literal| else old(position)
      ensures r.Err? ==> r.error.offset <= |input| && FirstMismatch(input, old(position), literal, r.error.offset)
      ensures r.Err? ==> r.error.code == if r.error.offset == |input| then ParseUnexpectedEnd else ParseUnexpectedToken
    {
      AtPointwise(input, position, literal);
      for index := 0 to |literal|
        invariant position == old(position) && position + index <= |input|
        invariant forall k :: 0 <= k < index ==> input[position + k] == literal[k]
      {
        if position + index >= |input| {
          return Err(Error(ParseUnexpectedEnd, |input|));
        }
        if input[position + index] != literal[index] {
          return Err(Error(ParseUnexpectedToken, position + index));
        }
      }
      position := position + |literal|;
      return Ok(());
    }

    method SkipNumberDigits()
      requires position <= |input|
      modifies this
      ensures position == SkipDigits(input, old(position))
    {
      while position < |input| && IsDigit(input[position])
        invariant position <= |input| && SkipDigits(input, old(position)) == SkipDigits(input, position)
      {
        position := position + 1;
      }
    }

    /** The integer part of a number, behind the sign. */
    method ScanInteger() returns (r: Result<()>)
      requires position < |input|
      modifies this
      ensures position <= |input|
      ensures r.Ok? ==> ReadInteger(input, old(position)) == Some(position)
      ensures r.Err? ==> ReadInteger(input, old(position)).None?
      ensures r.Err? ==> r.error == Error(ParseInvalidNumber, position)
    {
      if input[position] == 48 {
        position := position + 1;
        if position < |input| && IsDigit(input[position]) {
          return Err(Error(ParseInvalidNumber, position));
        }
      } else if 49 <= input[position] <= 57 {
        SkipNumberDigits();
      } else {
        return Err(Error(ParseInvalidNumber, position));
      }
      return Ok(());
    }

    /** The fraction, if there is one. */
    method ScanFraction() returns (r: Result<bool>)
      requires position <= |input|
      modifies this
      ensures position <= |input|
      ensures r.Ok? ==> ReadFraction(input, old(position)) == Some(position) && r.value == (position != old(position))
      ensures r.Err? ==> ReadFraction(input, old(position)).None?
      ensures r.Err? ==> r.error == Error(ParseInvalidNumber, position)
    {
      if position == |input| || input[position] != 46 {
        return Ok(false);
      }
      position := position + 1;
      if position == |input| || !IsDigit(input[position]) {
        return Err(Error(ParseInvalidNumber, position));
      }
      SkipNumberDigits();
      return Ok(true);
    }

    /** The exponent, if there is one. */
    method ScanExponent() returns (r: Result<bool>)
      requires position <= |input|
      modifies this
      ensures position <= |input|
      ensures r.Ok? ==> ReadExponent(input, old(position)) == Some(position) && r.value == (position != old(position))
      ensures r.Err? ==> ReadExponent(input, old(position)).None?
      ensures r.Err? ==> r.error == Error(ParseInvalidNumber, position)
    {
      if position == |input| || (input[position] != 101 && input[position] != 69) {
        return Ok(false);
      }
      position := position + 1;
      if position < |input| && (input[position] == 43 || input[position] == 45) {
        position := position + 1;
      }
      if position == |input| || !IsDigit(input[position]) {
        return Err(Error(ParseInvalidNumber, position));
      }
      SkipNumberDigits();
      return Ok(true);
    }

    /** The scanning half of parse_number; the answer is whether the number is a floating-point one. */
    method ScanNumber() returns (r: Result<bool>)
      requires position < |input|
      modifies this
      ensures position <= |input|
      ensures r.Ok? ==> ReadNumber(input, old(position)).Some?
      ensures r.Ok? ==>
        var n := ReadNumber(input, old(position)).value;
        position == n.1 && r.value == (n.0 != n.1)
      ensures r.Err? ==> ReadNumber(input, old(position)).None?
      ensures r.Err? ==> r.error.code == ParseInvalidNumber && r.error.offset <= |input|
    {
      hide ReadInteger, ReadFraction, ReadExponent;
      if input[position] == 45 {
        position := position + 1;
        if position == |input| {
          NoInteger(input);
          return Err(Error(ParseInvalidNumber, position));
        }
      }
      var whole := ScanInteger();
      if whole.Err? {
        return Err(whole.error);
      }
      var fraction := ScanFraction();
      if fraction.Err? {
        return Err(fraction.error);
      }
      var exponent := ScanExponent();
      if exponent.Err? {
        return Err(exponent.error);
      }
      return Ok(fraction.value || exponent.value);
    }

    // ---------- values ----------

    /** A node for a value just read between `start` and the cursor. */
    method MakeRead(j: Json, start: nat) returns (r: Result<Value>)
      requires Ready() && slab.Valid() && start <= |input| && !j.JString? && !j.JContainer? && Storable(j)
      modifies slab, slab.nodes
      ensures Ready() && slab.Valid() && position == old(position)
      ensures Parsed(old(slab.Contents()), slab.Contents(), Some((j, position)), r.Ok?, CodeOf(r), position)
      ensures r.Ok? ==> r.value == Value(slab, |old(slab.Contents()).cells|, slab.generation)
      ensures r.Err? ==> r.error.offset <= |input|
    {
      hide Tail, Shape, Picture, Inv, Storable, Plant, Planted, Footprint;
      ExtendsSelf(slab.Contents());
      if j.JFloat? {
        FloatFinite(j);
        r := slab.MakeFloat(j.d);
      } else {
        r := slab.MakeScalar(j);
      }
      r := WithOffset(r, start);
    }

    /** parse_null and parse_bool. */
    method ParseLiteral(literal: bytes, j: Json) returns (r: Result<Value>)
      requires Ready() && slab.Valid() && (j.JNull? || j.JBool?)
      modifies this, slab, slab.nodes
      ensures Ready() && (r.Ok? ==> slab.Valid())
      ensures Parsed(old(slab.Contents()), slab.Contents(),
                     if At(input, old(position), literal) then Some((j, old(position) + |literal|)) else None,
                     r.Ok?, CodeOf(r), position)
      ensures r.Ok? ==> r.value == Value(slab, |old(slab.Contents()).cells|, slab.generation)
      ensures r.Err? ==> r.error.offset <= |input|
    {
      hide Tail, Shape, Picture, Inv, Plant, Footprint, Extends, Parsed;
      ExtendsSelf(slab.Contents());
      var start := position;
      var consumed := ConsumeLiteral(literal);
      if consumed.Err? {
        ParsedNothing(slab.Contents(), consumed.error.code, position);
        return Err(consumed.error);
      }
      r := MakeRead(j, start);
    }

    /** The converting half of parse_number: signed if it fits, then unsigned; floating-point numbers must be finite. */
    method ConvertNumber(text: bytes, floating: bool, start: nat) returns (r: Result<Json>)
      requires start <= |input|
      ensures r.Ok? <==> Convert(fp, text, floating).Some?
      ensures r.Ok? ==> r.value == Convert(fp, text, floating).value
      ensures r.Err? ==> r.error == Error(ParseInvalidNumber, start)
    {
      hide DigitsValue;
      if !floating {
        if text != [] && text[0] == 45 {
          var number := -DigitsValue(text[1..]);
          if number < INT64_MIN || number > INT64_MAX {
            return Err(Error(ParseInvalidNumber, start));
          }
          return Ok(JInt(number));
        }
        var number := DigitsValue(text);
        if INT64_MIN <= number <= INT64_MAX {
          return Ok(JInt(number));
        }
        if number < 0 || number > UINT64_MAX {
          return Err(Error(ParseInvalidNumber, start));
        }
        return Ok(JUInt(number));
      }
      var number := fp(text);
      if number.None? || number.value == NonFinite {
        return Err(Error(ParseInvalidNumber, start));
      }
      return Ok(JFloat(number.value));
    }

    /** parse_number. */
    method ParseNumber() returns (r: Result<Value>)
      requires Ready() && slab.Valid() && position < |input|
      modifies this, slab, slab.nodes
      ensures Ready() && (r.Ok? ==> slab.Valid())
      ensures Parsed(old(slab.Contents()), slab.Contents(), ReadNumeric(fp, input, old(position)), r.Ok?, CodeOf(r),
          position)
      ensures r.Ok? ==> r.value == Value(slab, |old(slab.Contents()).cells|, slab.generation)
      ensures r.Err? ==> r.error.offset <= |input|
    {
      hide Tail, Shape, Picture, Inv, Plant, Footprint, Extends, Parsed, ReadNumber, Convert, Storable, Slab.Glued;
      var start := position;
      var scanned := ScanNumber();
      if scanned.Err? {
        ParsedNothing(slab.Contents(), scanned.error.code, position);
        return Err(scanned.error);
      }
      var text := Section(input, start, position);
      var number := ConvertNumber(text, scanned.value, start);
      if number.Err? {
        ParsedNothing(slab.Contents(), number.error.code, position);
        return Err(number.error);
      }
      ConvertedNumber(fp, text, scanned.value);
      r := MakeRead(number.value, start);
    }

    /** parse_string_value: the node first, then the bytes. */
    method ParseStringValue() returns (r: Result<Value>)
      requires Ready() && slab.Valid() && position < |input| && input[position] == QUOTE
      modifies this, slab.Repr()
      ensures Ready() && (r.Ok? ==> slab.Valid())
      ensures Parsed(old(slab.Contents()), slab.Contents(), ReadText(input, old(position)), r.Ok?, CodeOf(r), position)
      ensures r.Ok? ==> r.value == Value(slab, |old(slab.Contents()).cells|, slab.generation)
      ensures r.Err? ==> r.error.offset <= |input|
    {
      hide Tail, Shape, Picture, Inv, Plant, Footprint, Extends, Parsed, ReadString, Flags, Planted, Slab.Glued;
      var start := position;
      ghost var s := slab.Contents();
      slab.Counters();
      var node := slab.AllocateNode(String);
      if node.Err? {
        StringMemory(s, input, start);
        return Err(Error(node.error.code, start));
      }
      var text := ParseString();
      if text.Err? {
        StringFailed(s, input, start, text.error.code, position);
        return Err(text.error);
      }
      var id := node.value;
      slab.Counters();
      slab.NodeAt(id);
      slab.SetInfo(id, slab.nodes[id].info.(payload := PString(text.value.0), valueFlags := text.value.1));
      PlantStringSteps(s, ReadString(input, start + 1).value.0);
      StringPlanted(s, input, start);
      return Ok(Value(slab, id, slab.generation));
    }

    /** The key of an object member, up to its colon; nothing for an array element. */
    method ParseKey(o: bool) returns (r: Result<(StringRef, nat)>)
      requires Ready() && slab.Valid() && position < |input|
      modifies this, slab`stringBytesUsed, slab.storage
      ensures Ready()
      ensures KeyParsed(old(slab.Contents()), slab.Contents(), ReadKey(input, old(position), o), o, r.Ok?,
          CodeOf(r), position)
      ensures r.Ok? ==>
        var key := ReadKey(input, old(position), o).value.0;
        r.value.0 == KeyRef(old(slab.Contents()), o, key) && r.value.1 == KeyFlags(o, key)
      ensures r.Err? ==> r.error.offset <= |input|
    {
      hide Tail, Shape, Picture, Inv, ReadString, Flags, SkipBlank, Extends, AddString, NewRef, Slab.Glued;
      ghost var s := slab.Contents();
      ExtendsSelf(s);
      if !o {
        InvRemaining(s);
        return Ok((NO_STRING, 0));
      }
      if input[position] != QUOTE {
        return Err(Error(ParseUnexpectedToken, position));
      }
      ghost var start := position;
      var text := ParseString();
      if text.Err? {
        return Err(text.error);
      }
      AddStringExtends(s, ReadString(input, start + 1).value.0);
      SkipWhitespace();
      if position == |input| {
        return Err(Error(ParseUnexpectedEnd, position));
      }
      if input[position] != COLON {
        return Err(Error(ParseUnexpectedToken, position));
      }
      position := position + 1;
      return Ok(text.value);
    }

    /** One round of the loops of parse_array and parse_object: key, value and link. */
    method ParseMember(depth: nat, o: bool, p: nat) returns (r: Result<()>)
      requires Ready() && slab.Valid() && position < |input| && depth < maxDepth
      requires p < |slab.cells| && slab.cells[p].parent == INVALID_ID && slab.cells[p].info.kind == KindOf(o)
      modifies this, slab.Repr()
      ensures Ready() && (r.Ok? ==> slab.Valid())
      ensures MemberParsed(old(slab.Contents()), slab.Contents(), p, o,
                           ReadMember(fp, input, old(position), maxDepth - depth - 1, o), r.Ok?, CodeOf(r), position)
      ensures r.Err? ==> r.error.offset <= |input|
      decreases maxDepth - depth, 0
    {
      hide Tail, Shape, Picture, Inv, ReadKey, ReadValue, Flags, Extends, KeyRef, KeyFlags, PlantKey, Plant,
           PlantMember, Footprint, Storable,
           CanAttach, IsForest, Slab.Glued, KeyParsed, Parsed, MemberParsed;
      ghost var s := slab.Contents();
      slab.Counters();
      ghost var i := position;
      var key := ParseKey(o);
      if key.Err? {
        KeyFailed(fp, s, slab.Contents(), input, i, maxDepth - depth - 1, o, p, CodeOf(key), position);
        return Err(key.error);
      }
      KeyDone(s, slab.Contents(), input, i, o, position);
      var child := ParseValue(depth + 1);
      if child.Err? {
        ValueFailed(fp, s, slab.Contents(), input, i, maxDepth - depth - 1, o, p, CodeOf(child), position);
        return Err(child.error);
      }
      ValueDone(fp, s, slab.Contents(), input, i, maxDepth - depth - 1, o, p, position);
      slab.AppendChild(p, child.value.id, key.value.0, key.value.1);
      return Ok(());
    }

    /** What follows a member: the closing bracket, or a comma and the start of the next member. */
    method ParseSeparator(o: bool) returns (r: Result<bool>)
      requires position <= |input|
      modifies this
      ensures position <= |input|
      ensures var e := SkipBlank(input, old(position));
              if e < |input| && input[e] == Close(o) then r == Ok(true) && position == e + 1
              else if e < |input| && input[e] == COMMA && SkipBlank(input, e + 1) < |input| then
                r == Ok(false) && position == SkipBlank(input, e + 1)
              else r.Err? && r.error.code != NoError && r.error.offset <= |input|
    {
      hide SkipBlank;
      SkipWhitespace();
      if position == |input| {
        return Err(Error(ParseUnexpectedEnd, position));
      }
      if input[position] == Close(o) {
        position := position + 1;
        return Ok(true);
      }
      if input[position] != COMMA {
        return Err(Error(ParseUnexpectedToken, position));
      }
      position := position + 1;
      SkipWhitespace();
      if position == |input| {
        return Err(Error(ParseUnexpectedEnd, position));
      }
      return Ok(false);
    }

    /** The loops of parse_array and parse_object, from the first member to the closing bracket. */
    method ParseMembers(depth: nat, o: bool, id: nat, ghost s: State) returns (r: Result<()>)
      requires Ready() && slab.Valid() && position < |input| && depth < maxDepth
      requires Filling(s, slab.Contents(), o, []) && id == |s.cells|
      modifies this, slab.Repr()
      ensures Ready() && (r.Ok? ==> slab.Valid() && slab.generation == s.generation)
      ensures Parsed(s, slab.Contents(),
          Contained(o, ReadMembers(fp, input, old(position), maxDepth - depth - 1, o, [])),
                     r.Ok?, CodeOf(r), position)
      ensures r.Err? ==> r.error.offset <= |input|
      decreases maxDepth - depth, 1
    {
      hide Tail, Shape, Picture, Inv, ReadMembers, ReadMember, SkipBlank, Extends, Plant, PlantMember, Footprint,
           FootprintOf,
           Storable, Slab.Glued, Parsed, MemberParsed, Filling, Planted;
      ghost var fuel := maxDepth - depth;
      ghost var first, acc := position, [];
      while true
        invariant Ready() && slab.Valid() && position < |input|
        invariant Filling(s, slab.Contents(), o, acc)
        invariant ReadMembers(fp, input, first, fuel - 1, o, []) == ReadMembers(fp, input, position, fuel - 1, o, acc)
        decreases |input| - position
      {
        ghost var i, t := position, slab.Contents();
        FillingRoot(s, t, o, acc);
        slab.Counters();
        var member := ParseMember(depth, o, id);
        if member.Err? {
          ContainerFailed(fp, s, t, slab.Contents(), input, i, fuel - 1, o, acc, CodeOf(member), position);
          return Err(member.error);
        }
        MemberNext(fp, s, t, slab.Contents(), input, i, fuel - 1, o, acc, position);
        acc := acc + [ReadMember(fp, input, i, fuel - 1, o).value.0];
        var closed := ParseSeparator(o);
        if closed.Err? {
          ContainerBroken(s, slab.Contents(), o, acc, closed.error.code, position);
          return Err(closed.error);
        }
        if closed.value {
          ContainerRead(s, slab.Contents(), o, acc, position);
          return Ok(());
        }
      }
    }

    /** parse_array and parse_object. */
    method ParseContainer(depth: nat, o: bool) returns (r: Result<Value>)
      requires Ready() && slab.Valid() && position < |input| && depth <= maxDepth
      modifies this, slab.Repr()
      ensures Ready() && (r.Ok? ==> slab.Valid())
      ensures Parsed(old(slab.Contents()), slab.Contents(),
          ReadContainer(fp, input, old(position), maxDepth - depth, o), r.Ok?, CodeOf(r), position)
      ensures r.Ok? ==> r.value == Value(slab, |old(slab.Contents()).cells|, slab.generation)
      ensures r.Err? ==> r.error.offset <= |input|
      decreases maxDepth - depth, 2
    {
      hide Tail, Shape, Picture, Inv, ReadContainer, ReadMembers, ReadMember, SkipBlank, Extends, Plant, AddNode,
           PlantMember, Footprint, FootprintOf,
           Storable, Slab.Glued, Parsed, MemberParsed, Filling, Planted;
      ghost var s := slab.Contents();
      slab.Counters();
      var start := position;
      if depth >= maxDepth {
        TooDeep(fp, input, start, o);
        ParsedNothing(s, ParserDepthExceeded, position);
        return Err(Error(ParserDepthExceeded, start));
      }
      ghost var fuel := maxDepth - depth;
      position := position + 1;
      var made := slab.MakeContainer(o);
      if made.Err? {
        ContainerNoRoom(s, o, ReadContainer(fp, input, start, fuel, o), position);
        return WithOffset(made, start);
      }
      ContainerMade(s, slab.Contents(), o);
      SkipWhitespace();
      ContainerCases(fp, input, start, fuel, o);
      if position == |input| {
        ContainerBroken(s, slab.Contents(), o, [], ParseUnexpectedEnd, position);
        return Err(Error(ParseUnexpectedEnd, position));
      }
      if input[position] == Close(o) {
        position := position + 1;
        ContainerRead(s, slab.Contents(), o, [], position);
        return made;
      }
      var members := ParseMembers(depth, o, made.value.id, s);
      if members.Err? {
        return Err(members.error);
      }
      return made;
    }

    /** parse_value. */
    method ParseValue(depth: nat) returns (r: Result<Value>)
      requires Ready() && slab.Valid() && depth <= maxDepth
      modifies this, slab.Repr()
      ensures Ready() && (r.Ok? ==> slab.Valid())
      ensures Parsed(old(slab.Contents()), slab.Contents(), ReadValue(fp, input, old(position), maxDepth - depth),
          r.Ok?, CodeOf(r), position)
      ensures r.Ok? ==> r.value == Value(slab, |old(slab.Contents()).cells|, slab.generation)
      ensures r.Err? ==> r.error.offset <= |input|
      decreases maxDepth - depth, 3
    {
      hide Tail, Shape, Picture, Inv, Extends, Plant, Footprint, Slab.Glued, Parsed, ReadString, ReadNumber,
           Convert, ReadContainer, SkipBlank;
      SkipWhitespace();
      if position == |input| {
        ParsedNothing(slab.Contents(), ParseUnexpectedEnd, position);
        return Err(Error(ParseUnexpectedEnd, position));
      }
      var b := input[position];
      if b == 110 {
        r := ParseLiteral(NULL_TEXT, JNull);
      } else if b == 116 {
        r := ParseLiteral(TRUE_TEXT, JBool(true));
      } else if b == 102 {
        r := ParseLiteral(FALSE_TEXT, JBool(false));
      } else if b == QUOTE {
        r := ParseStringValue();
      } else if b == Open(false) {
        r := ParseContainer(depth, false);
      } else if b == Open(true) {
        r := ParseContainer(depth, true);
      } else if b == 45 || IsDigit(b) {
        r := ParseNumber();
      } else {
        ParsedNothing(slab.Contents(), ParseUnexpectedToken, position);
        return Err(Error(ParseUnexpectedToken, position));
      }
    }

    /** run: all of the text or nothing of it. */
    method Run() returns (r: Result<Value>)
      requires slab.Valid() && position == 0
      modifies this, slab.Repr()
      ensures slab.Valid()
      ensures ParsedText(old(slab.Contents()), fp, input, maxDepth, trailing, overlaps, slab.Contents(), IdOf(r))
      ensures r.Ok? ==> r.value.slab == slab && r.value.generation == slab.generation
    {
      hide Tail, Shape, Picture, Inv, SkipBlank, ReadValue, Plant, Footprint, Planted, Storable, Slab.Glued, Parsed,
           Extends;
      ghost var s := slab.Contents();
      slab.Counters();
      if !slab.valid || maxDepth > MAX_PARSER_DEPTH || overlaps {
        return Fail(InvalidArgument);
      }
      var start := slab.Mark();
      SkipWhitespace();
      SkipTwice(fp, input, maxDepth);
      if position == |input| {
        return Err(Error(ParseUnexpectedEnd, position));
      }
      var value := ParseValue(0);
      ghost var t := slab.Contents();
      ParsedExtends(s, t, ReadValue(fp, input, 0, maxDepth), value.Ok?, CodeOf(value), position, fp, input, maxDepth);
      if value.Err? {
        slab.Rollback(start, s);
        ErrorIrrelevant(s, slab.error);
        return Err(value.error);
      }
      if trailing {
        SkipWhitespace();
      }
      if position != |input| {
        slab.Rollback(start, s);
        ErrorIrrelevant(s, slab.error);
        return Err(Error(ParseTrailingCharacters, position));
      }
      return value;
    }
  }

  lemma HexRange(input: bytes, i: nat)
    requires ReadHex(input, i).Some?
    ensures i + 4 <= |input| && ReadHex(input, i).value <= 0xFFFF
  {
  }

  lemma NothingRun(input: bytes, i: nat)
    requires i <= |input|
    ensures Section(input, i, i) == [] && Flags([]) == 0
  {
  }

  /** A character that is not an escape decodes to itself. */
  lemma RunNext(input: bytes, i: nat, j: nat)
    requires i <= j < |input| && input[j] != BACKSLASH && ReadUnit(input, j).Some?
    ensures Section(input, i, j) + ReadUnit(input, j).value.0 == Section(input, i, ReadUnit(input, j).value.1)
  {
    hide Utf8.CharLength;
  }

  lemma ShortMeasures(input: bytes, cursor: nat, special: bool)
    requires cursor + 1 < |input| && input[cursor] == BACKSLASH
    requires if special then input[cursor + 1] in {QUOTE, BACKSLASH, 98, 102, 110, 114, 116}
        else input[cursor + 1] == 47
    ensures Measures(Step(cursor + 2, 1, special), ReadUnit(input, cursor))
  {
    var c := ReadUnit(input, cursor).value.0;
    assert c[0] in c;
  }

  lemma PlainMeasures(input: bytes, cursor: nat)
    requires cursor < |input| && input[cursor] >= 0x20 && input[cursor] != QUOTE && input[cursor] != BACKSLASH
    ensures var n := Utf8.CharLength(Utf8.From(input, cursor));
            && (n == 0 ==> ReadUnit(input, cursor).None?)
            && (n > 0 ==> Measures(Step(cursor + n, n, false), ReadUnit(input, cursor)))
    ensures input[cursor] < 0x80 ==> Utf8.CharLength(Utf8.From(input, cursor)) == 1
  {
    var s := input[cursor..];
    var n := Utf8.CharLength(s);
    if n > 0 {
      assert s[..n] == input[cursor..cursor + n] && s[..n][0] == input[cursor];
      PlainFlags(s[..n]);
    }
    if input[cursor] < 0x80 {
      Utf8.AsciiChar(s);
    }
  }

  lemma HexDigits(input: bytes, i: nat)
    requires ReadHex(input, i).Some?
    ensures i + 4 <= |input| && IsHex4(input[i..i + 4])
    ensures forall k :: i <= k < i + 4 ==> HexValue(input[k]) >= 0
  {
    var h := input[i..i + 4];
    assert h[0] == input[i] && h[1] == input[i + 1] && h[2] == input[i + 2] && h[3] == input[i + 3];
  }

  lemma NothingPatched(s: bytes, at: nat)
    requires at <= |s|
    ensures Patched(s, s, at, [])
  {
  }

  /** A character that is not an escape, by its first byte. */
  lemma PlainLength(input: bytes, cursor: nat)
    requires cursor < |input| && input[cursor] != BACKSLASH && ReadUnit(input, cursor).Some?
    ensures var n := if input[cursor] < 0x80 then 1 else Utf8.UncheckedLength(input[cursor]);
            cursor + n <= |input| && ReadUnit(input, cursor).value.0 == input[cursor..cursor + n]
                && ReadUnit(input, cursor).value.1 == cursor + n
  {
    hide Utf8.IsChar;
    var s := input[cursor..];
    Utf8.UncheckedLengthAgrees(s);
    if input[cursor] < 0x80 {
      Utf8.AsciiChar(s);
    }
  }

  /** Before the closing quote there is a character to decode; at the closing quote everything is decoded. */
  lemma EndsAtQuote(input: bytes, start: nat, done: bytes, i: nat)
    requires Resumes(input, start, done, i) && ReadString(input, start).Some?
    ensures var text := ReadString(input, start).value;
            && i < text.1
            && (i < text.1 - 1 ==> input[i] != QUOTE && ReadUnit(input, i).Some?)
            && (i == text.1 - 1 ==> done == text.0)
            && |done| <= |text.0|
  {
    hide ReadUnit;
    if i < |input| && input[i] != QUOTE && ReadUnit(input, i).Some? {
      StringStep(input, i);
    }
    assert done + [] == done;
  }

  lemma CopiedRun(before: bytes, now: bytes, at: nat, input: bytes, i: nat, j: nat)
    requires i <= j <= |input| && at + (j - i) <= |now| == |before|
    requires forall k :: 0 <= k < |now| ==> now[k] == if at <= k < at + (j - i) then input[i + (k - at)] else before[k]
    ensures Patched(before, now, at, Section(input, i, j))
  {
  }

  lemma PatchedTail(before: bytes, now: bytes, n: nat, data: bytes)
    requires n + |data| <= |before| && Patched(before, now, |before| - n - |data|, data)
    ensures |now| == |before| && Tail(now, n + |data|) == data + Tail(before, n)
  {
    TailGrows(before, now, n, data);
  }

  lemma AddedString(s: State, data: bytes, t: State)
    requires t == s.(heap := data + s.heap)
    ensures t == AddString(s, data)
  {
  }

  lemma AtPointwise(input: bytes, i: nat, t: bytes)
    ensures At(input, i, t) <==> i + |t| <= |input| && forall k :: 0 <= k < |t| ==> input[i + k] == t[k]
  {
    AtIsSlice(input, i, t);
    if i + |t| <= |input| {
      var slice := input[i..i + |t|];
      assert forall k :: 0 <= k < |t| ==> slice[k] == input[i + k];
    }
  }

  lemma NoInteger(input: bytes)
    ensures ReadInteger(input, |input|).None?
  {
  }

  lemma FloatFinite(j: Json)
    requires j.JFloat? && Storable(j)
    ensures j.d != NonFinite && j == JFloat(j.d)
  {
  }

  lemma ParsedNothing(s: State, code: ErrorCode, end: nat)
    requires code != NoError
    ensures Parsed(s, s, None, false, code, end)
  {
    ExtendsSelf(s);
  }

  lemma ConvertedNumber(fp: FloatReader, text: bytes, floating: bool)
    requires Convert(fp, text, floating).Some?
    ensures var j := Convert(fp, text, floating).value;
            Storable(j) && !j.JString? && !j.JContainer?
  {
  }

  /** A string value and the position behind it. */
  function ReadText(input: bytes, p: nat): Option<(Json, nat)>
    requires p < |input|
  {
    var text :- ReadString(input, p + 1);
    Some((JString(text.0), text.1))
  }

  /** Running out of memory before the node of a string, and behind it. */
  lemma StringMemory(s: State, input: bytes, p: nat)
    requires p < |input|
    ensures Remaining(s) < NODE_BYTES ==> Parsed(s, s, ReadText(input, p), false, OutOfMemory, p)
  {
    hide ReadString;
    SuffixSelf(s.heap);
  }

  lemma StringFailed(s: State, input: bytes, p: nat, code: ErrorCode, end: nat)
    requires p < |input| && code != NoError
    requires ReadString(input, p + 1).Some? ==>
      code == StringCapacityExceeded && |ReadString(input, p + 1).value.0| > Remaining(AddNode(s, FreshInfo(String)))
    ensures Parsed(s, AddNode(s, FreshInfo(String)), ReadText(input, p), false, code, end)
  {
    hide ReadString;
    SuffixSelf(s.heap);
  }

  lemma StringPlanted(s: State, input: bytes, p: nat)
    requires Inv(s) && p < |input| && ReadString(input, p + 1).Some?
    ensures var text := ReadString(input, p + 1).value;
            && Plant(s, JString(text.0)) == PlantString(s, text.0)
            && (NODE_BYTES + |text.0| <= Remaining(s) ==>
                  Parsed(s, PlantString(s, text.0), ReadText(input, p), true, NoError, text.1)
                      && Inv(PlantString(s, text.0)))
  {
    hide ReadString, Inv, PlantString;
    ReadStringValid(input, p + 1);
    var text := ReadString(input, p + 1).value.0;
    if NODE_BYTES + |text| <= Remaining(s) {
      PlantStringRight(s, text);
      PlantedInv(s, PlantString(s, text), JString(text));
    }
  }

  // ---------- containers ----------

  /** Whatever is read can be stored. */
  lemma ReadStorable(fp: FloatReader, input: bytes, i: nat, fuel: nat)
    requires i <= |input| && ReadValue(fp, input, i, fuel).Some?
    ensures Storable(ReadValue(fp, input, i, fuel).value.0)
  {
    hide ReadValue, SyntaxOk, SyntaxText, Meaning, Storable, SkipBlank, Depth;
    var x := ValueSound(fp, input, i, fuel);
    RoundTrip.MeaningShape(fp, x);
  }

  lemma ReadKeyValid(input: bytes, i: nat, o: bool)
    requires i < |input| && ReadKey(input, i, o).Some?
    ensures if o then Utf8.Valid(ReadKey(input, i, o).value.0) else ReadKey(input, i, o).value.0 == []
  {
    hide ReadString, Utf8.Valid;
    if o {
      ReadStringValid(input, i + 1);
    }
  }

  /** More members need more room. */
  lemma FootprintPrefix(a: seq<Member>, b: seq<Member>)
    requires a <= b
    ensures FootprintOf(a) <= FootprintOf(b)
  {
    assert b == a + b[|a|..];
    NodesConcat(a, b[|a|..]);
  }

  /** The state while a container is filled: what was there before, and the members so far. */
  ghost predicate Filling(s: State, t: State, o: bool, acc: seq<Member>) {
    var u := AddNode(s, ContainerInfo(o));
    && Inv(s) && NODE_BYTES <= Remaining(s) && Inv(t) && Extends(s, t)
    && AllStorable(o, acc) && |s.cells| < |u.cells| && t == PlantMembers(u, |s.cells|, o, acc)
    && |s.cells| < |t.cells| && t.cells[|s.cells|].parent == INVALID_ID && t.cells[|s.cells|].info.kind == KindOf(o)
    && Remaining(t) == Remaining(s) - NODE_BYTES - FootprintOf(acc) && Remaining(t) >= 0
  }

  lemma FillingStart(s: State, o: bool)
    requires Inv(s) && NODE_BYTES <= Remaining(s)
    ensures Filling(s, AddNode(s, ContainerInfo(o)), o, [])
  {
    hide Inv, IsSuffix, Unclaimed;
    var u := AddNode(s, ContainerInfo(o));
    NothingClaims(s.cells);
    ContainerInfoOk(s, o);
    AddNodeRight(s, ContainerInfo(o));
    assert u.cells[|s.cells|] == Cell(ContainerInfo(o), INVALID_ID, []);
  }

  lemma ContainerInfoOk(s: State, o: bool)
    ensures InfoOk(s, ContainerInfo(o)) && Ref(Cell(ContainerInfo(o), INVALID_ID, []), false) == NO_STRING
    ensures ContainerInfo(o).key == NO_STRING
  {
  }

  /** One more member. */
  lemma FillingNext(s: State, t: State, o: bool, acc: seq<Member>, m: Member)
    requires Filling(s, t, o, acc)
    requires Storable(m.value) && (if o then Utf8.Valid(m.key) else m.key == [])
    requires |m.key| + Footprint(m.value) <= Remaining(t)
    ensures |s.cells| < |t.cells| && Filling(s, PlantMember(t, |s.cells|, o, m), o, acc + [m])
  {
    hide Inv, IsSuffix, PlantMember, PlantMembers, Storable, Utf8.Valid, FreshRefs, Members, Footprint, FootprintOf,
         Extends, Grows, AddNode;
    var p, u := |s.cells|, PlantMember(t, |s.cells|, o, m);
    PlantMemberRight(t, p, o, m);
    GrowsExtends(s, t, u, p);
    GrowsRoot(t, u, p);
    GrowsCapacity(t, u, p);
    FootprintSnoc(acc, m);
    PlantMembersSnoc(AddNode(s, ContainerInfo(o)), p, o, acc, m);
    MemberSize(t, u, m);
  }

  lemma GrowsCapacity(t: State, u: State, p: nat)
    requires Grows(t, u, p)
    ensures u.capacity == t.capacity
  {
    hide IsSuffix;
  }

  lemma PlantMembersSnoc(s: State, p: nat, o: bool, acc: seq<Member>, m: Member)
    requires p < |s.cells|
    ensures PlantMembers(s, p, o, acc + [m]) == PlantMember(PlantMembers(s, p, o, acc), p, o, m)
  {
    hide PlantMember;
    assert (acc + [m])[..|acc|] == acc;
  }

  lemma GrowsRoot(t: State, u: State, p: nat)
    requires Grows(t, u, p)
    ensures p < |u.cells| && u.cells[p].parent == t.cells[p].parent && u.cells[p].info == t.cells[p].info
  {
    hide IsSuffix;
  }

  /** The closing bracket. */
  lemma FillingDone(s: State, t: State, o: bool, acc: seq<Member>)
    requires Filling(s, t, o, acc)
    ensures t == Plant(s, JContainer(o, acc)) && Footprint(JContainer(o, acc)) <= Remaining(s) && Inv(t)
    ensures Storable(JContainer(o, acc))
  {
    hide Inv, IsSuffix, PlantMembers;
  }

  /** A child just planted behind its key may be linked below the container. */
  lemma MemberLinks(s: State, p: nat, o: bool, m: Member)
    requires Inv(s) && p < |s.cells| && s.cells[p].parent == INVALID_ID && s.cells[p].info.kind == KindOf(o)
    requires Storable(m.value) && (if o then Utf8.Valid(m.key) else m.key == [])
    requires |m.key| + Footprint(m.value) <= Remaining(s)
    ensures var u := Plant(PlantKey(s, o, m.key), m.value);
            CanAttach(u, p, |s.cells|) && IsForest(u.cells)
  {
    hide IsSuffix, Inv, Shape, Acyclic, Plant, PlantKey, Storable, Utf8.Valid, IsAncestor, FreshRefs, Footprint;
    PlantKeyRight(s, o, m.key);
    var t := PlantKey(s, o, m.key);
    KeyRoom(s, t, m.key);
    PlantRight(t, m.value);
    var u := Plant(t, m.value);
    PlantedFacts(t, u, m.value);
    InvForest(u);
    NewNotAbove(t, u, p);
  }

  lemma KeyRoom(s: State, t: State, key: bytes)
    requires t.cells == s.cells && t.capacity == s.capacity && |t.heap| == |s.heap| + |key|
    ensures Remaining(t) == Remaining(s) - |key|
  {
  }

  // ---------- the steps of a member ----------

  lemma KeyFailed(fp: FloatReader, s: State, t: State, input: bytes, i: nat, fuel: nat, o: bool, p: nat,
                  code: ErrorCode, end: nat)
    requires i < |input| && p < |s.cells| && KeyParsed(s, t, ReadKey(input, i, o), o, false, code, end)
    ensures MemberParsed(s, t, p, o, ReadMember(fp, input, i, fuel, o), false, code, end)
  {
    hide ReadKey, ReadValue, Extends;
  }

  lemma KeyDone(s: State, t: State, input: bytes, i: nat, o: bool, end: nat)
    requires Inv(s) && i < |input| && KeyParsed(s, t, ReadKey(input, i, o), o, true, NoError, end)
    ensures ReadKey(input, i, o).Some? && end == ReadKey(input, i, o).value.1
    ensures t == PlantKey(s, o, ReadKey(input, i, o).value.0)
    ensures Inv(t) && t.cells == s.cells && |ReadKey(input, i, o).value.0| <= Remaining(s)
  {
    hide ReadKey, Inv, Utf8.Valid, IsSuffix;
    ReadKeyValid(input, i, o);
    PlantKeyRight(s, o, ReadKey(input, i, o).value.0);
  }

  lemma ValueFailed(fp: FloatReader, s: State, u: State, input: bytes, i: nat, fuel: nat, o: bool, p: nat,
                    code: ErrorCode, end: nat)
    requires Inv(s) && i < |input| && p < |s.cells| && ReadKey(input, i, o).Some?
    requires |ReadKey(input, i, o).value.0| <= Remaining(s)
    requires var key := ReadKey(input, i, o).value;
             Parsed(PlantKey(s, o, key.0), u, ReadValue(fp, input, key.1, fuel), false, code, end)
    ensures MemberParsed(s, u, p, o, ReadMember(fp, input, i, fuel, o), false, code, end)
  {
    hide ReadKey, ReadValue, Inv, Utf8.Valid, IsSuffix, PlantKey, Footprint;
    var key := ReadKey(input, i, o).value.0;
    ReadKeyValid(input, i, o);
    PlantKeyRight(s, o, key);
    KeyRoom(s, PlantKey(s, o, key), key);
    ExtendsTransitive(s, PlantKey(s, o, key), u);
  }

  lemma ValueDone(fp: FloatReader, s: State, u: State, input: bytes, i: nat, fuel: nat, o: bool, p: nat, end: nat)
    requires Inv(s) && i < |input| && p < |s.cells| && s.cells[p].parent == INVALID_ID
    requires s.cells[p].info.kind == KindOf(o)
    requires ReadKey(input, i, o).Some? && |ReadKey(input, i, o).value.0| <= Remaining(s)
    requires var key := ReadKey(input, i, o).value;
             Parsed(PlantKey(s, o, key.0), u, ReadValue(fp, input, key.1, fuel), true, NoError, end)
    ensures CanAttach(u, p, |s.cells|) && IsForest(u.cells) && p < |u.cells| && |s.cells| < |u.cells|
    ensures var key := ReadKey(input, i, o).value.0;
            var w := AttachTo(u, p, |s.cells|, KeyRef(s, o, key), KeyFlags(o, key));
            Inv(w) && MemberParsed(s, w, p, o, ReadMember(fp, input, i, fuel, o), true, NoError, end)
  {
    hide ReadKey, ReadValue, Inv, Utf8.Valid, IsSuffix, PlantKey, Footprint, Plant, IsForest, Storable, Members,
         FreshRefs, KeyRef, KeyFlags, Attach, IsAncestor;
    var key, v := ReadKey(input, i, o).value, ReadValue(fp, input, ReadKey(input, i, o).value.1, fuel).value;
    var m := Member(key.0, v.0);
    ReadKeyValid(input, i, o);
    ReadStorable(fp, input, key.1, fuel);
    PlantKeyRight(s, o, key.0);
    KeyRoom(s, PlantKey(s, o, key.0), key.0);
    MemberLinks(s, p, o, m);
    PlantMemberRight(s, p, o, m);
    assert ReadMember(fp, input, i, fuel, o) == Some((m, v.1));
    assert PlantMember(s, p, o, m) == AttachTo(u, p, |s.cells|, KeyRef(s, o, key.0), KeyFlags(o, key.0));
  }

  // ---------- the steps of a container ----------

  lemma TooDeep(fp: FloatReader, input: bytes, p: nat, o: bool)
    requires p < |input|
    ensures ReadContainer(fp, input, p, 0, o).None?
  {
  }

  lemma ContainerNoRoom(s: State, o: bool, read: Option<(Json, nat)>, end: nat)
    requires Inv(s) && s.valid && !Room(s, JContainer(o, []))
    ensures Parsed(s, s, read, false, OutOfMemory, end)
  {
    hide Inv;
    MadeRight(s, JContainer(o, []));
    ExtendsSelf(s);
  }

  lemma ContainerMade(s: State, t: State, o: bool)
    requires Inv(s) && Made(s, JContainer(o, []), t, true)
    ensures Filling(s, t, o, []) && t.generation == s.generation
  {
    hide Inv, Planted, Plant;
    MadeRight(s, JContainer(o, []));
    FillingStart(s, o);
  }

  lemma ContainerCases(fp: FloatReader, input: bytes, p: nat, fuel: nat, o: bool)
    requires p < |input| && fuel > 0
    ensures var q := SkipBlank(input, p + 1);
            ReadContainer(fp, input, p, fuel, o) ==
              if q == |input| then None
              else if input[q] == Close(o) then Some((JContainer(o, []), q + 1))
              else Contained(o, ReadMembers(fp, input, q, fuel - 1, o, []))
  {
    hide ReadMembers, SkipBlank;
  }

  function Contained(o: bool, ms: Option<(seq<Member>, nat)>): Option<(Json, nat)> {
    match ms
    case None => None
    case Some(m) => Some((JContainer(o, m.0), m.1))
  }

  lemma FillingRoot(s: State, t: State, o: bool, acc: seq<Member>)
    requires Filling(s, t, o, acc)
    ensures |s.cells| < |t.cells| && t.cells[|s.cells|].parent == INVALID_ID
    ensures t.cells[|s.cells|].info.kind == KindOf(o)
  {
    hide Inv, IsSuffix, PlantMembers;
  }

  /** The text turned out wrong. */
  lemma ContainerBroken(s: State, t: State, o: bool, acc: seq<Member>, code: ErrorCode, end: nat)
    requires Filling(s, t, o, acc) && code != NoError
    ensures Parsed(s, t, None, false, code, end)
  {
    hide Inv, IsSuffix, PlantMembers, Extends;
  }

  lemma ContainerRead(s: State, t: State, o: bool, acc: seq<Member>, end: nat)
    requires Filling(s, t, o, acc)
    ensures Parsed(s, t, Some((JContainer(o, acc), end)), true, NoError, end) && t.generation == s.generation
  {
    hide Inv, IsSuffix, PlantMembers;
    FillingDone(s, t, o, acc);
  }

  /** What is read goes on with the first member. */
  lemma MembersGrow(fp: FloatReader, input: bytes, i: nat, fuel: nat, o: bool, acc: seq<Member>)
    requires i < |input| && ReadMembers(fp, input, i, fuel, o, acc).Some?
    ensures ReadMember(fp, input, i, fuel, o).Some?
    ensures acc + [ReadMember(fp, input, i, fuel, o).value.0] <= ReadMembers(fp, input, i, fuel, o, acc).value.0
  {
    hide ReadKey, ReadValue, ReadMembers, SkipBlank;
    ReadMembersStep(fp, input, i, fuel, o, acc);
  }

  /** A member failed: the text is wrong, or the container with it would not have fitted. */
  lemma ContainerFailed(fp: FloatReader, s: State, t: State, u: State, input: bytes, i: nat, fuel: nat, o: bool,
                        acc: seq<Member>, code: ErrorCode, end: nat)
    requires Filling(s, t, o, acc) && i < |input| && |s.cells| < |t.cells|
    requires MemberParsed(t, u, |s.cells|, o, ReadMember(fp, input, i, fuel, o), false, code, end)
    ensures Parsed(s, u, Contained(o, ReadMembers(fp, input, i, fuel, o, acc)), false, code, end)
  {
    hide Inv, IsSuffix, PlantMembers, Extends, ReadMember, ReadMembers, Footprint, FootprintOf;
    ExtendsTransitive(s, t, u);
    if ReadMembers(fp, input, i, fuel, o, acc).Some? {
      MembersGrow(fp, input, i, fuel, o, acc);
      var m := ReadMember(fp, input, i, fuel, o).value.0;
      var ms := ReadMembers(fp, input, i, fuel, o, acc).value.0;
      FootprintPrefix(acc + [m], ms);
      FootprintSnoc(acc, m);
      ContainerFootprint(o, ms);
    }
  }

  lemma ContainerFootprint(o: bool, ms: seq<Member>)
    ensures Footprint(JContainer(o, ms)) == NODE_BYTES + FootprintOf(ms)
  {
  }

  /** A member is in: what the reader does behind it. */
  lemma MemberNext(fp: FloatReader, s: State, t: State, u: State, input: bytes, i: nat, fuel: nat, o: bool,
                   acc: seq<Member>, end: nat)
    requires Filling(s, t, o, acc) && i < |input| && |s.cells| < |t.cells|
    requires MemberParsed(t, u, |s.cells|, o, ReadMember(fp, input, i, fuel, o), true, NoError, end)
    ensures ReadMember(fp, input, i, fuel, o).Some? && i < end <= |input|
    ensures var ms := acc + [ReadMember(fp, input, i, fuel, o).value.0];
            && Filling(s, u, o, ms)
            && var e := SkipBlank(input, end);
            ReadMembers(fp, input, i, fuel, o, acc) ==
              if e == |input| then None
              else if input[e] == Close(o) then Some((ms, e + 1))
              else if input[e] != COMMA || SkipBlank(input, e + 1) == |input| then None
              else ReadMembers(fp, input, SkipBlank(input, e + 1), fuel, o, ms)
  {
    hide Inv, PlantMembers, PlantMember, Extends, ReadKey, ReadValue, ReadMembers, Footprint, FootprintOf, Storable,
         Utf8.Valid, SkipBlank, Filling;
    var m := ReadMember(fp, input, i, fuel, o).value.0;
    ReadKeyValid(input, i, o);
    ReadStorable(fp, input, ReadKey(input, i, o).value.1, fuel);
    FillingNext(s, t, o, acc, m);
    ReadMembersStep(fp, input, i, fuel, o, acc);
  }

  // ---------- whole texts ----------

  lemma SkipTwice(fp: FloatReader, input: bytes, fuel: nat)
    ensures var p := SkipBlank(input, 0);
            && ReadValue(fp, input, p, fuel) == ReadValue(fp, input, 0, fuel)
            && (p == |input| ==> ReadValue(fp, input, 0, fuel).None?)
  {
    hide ReadContainer, ReadString, ReadNumber, Convert;
    var p := SkipBlank(input, 0);
    assert SkipBlank(input, p) == p;
  }

  lemma ParsedExtends(s: State, t: State, read: Option<(Json, nat)>, ok: bool, code: ErrorCode, end: nat,
                      fp: FloatReader, input: bytes, fuel: nat)
    requires Inv(s) && Parsed(s, t, read, ok, code, end) && read == ReadValue(fp, input, 0, fuel)
    ensures CountersOk(s) && Shape(s.cells) && Extends(s, t) && t.error == s.error && t.generation == s.generation
    ensures t.(error := s.error) == t
    ensures !ok ==> code != NoError && (read.Some? ==> IsMemory(code) && Footprint(read.value.0) > Remaining(s))
    ensures ok ==>
      read.Some? && end == read.value.1 && Footprint(read.value.0) <= Remaining(s) && t == Plant(s, read.value.0)
  {
    hide Inv, IsSuffix, Shape, Plant, Footprint, Storable, ReadValue;
    InvParts(s);
    if ok {
      ReadStorable(fp, input, 0, fuel);
      PlantRight(s, read.value.0);
    }
  }
}

/** The parser as it runs: a cursor and a depth that every step moves, over a text that a NUL follows. */
module ParseBuffers {
  import opened Bytes
  import opened Json
  import opened Pointers
  import opened Escapes
  import opened Spellings
  import opened Parsing

  /** Values already parsed, before those still to come. */
  function Then<T>(done: seq<T>, r: Parsed<seq<T>>): Parsed<seq<T>> {
    match r
    case Ok(rest, next) => Ok(done + rest, next)
    case Err(at) => Err(at)
  }

  lemma ThenThen<T>(done: seq<T>, x: T, r: Parsed<seq<T>>)
    ensures Then(done, Then([x], r)) == Then(done + [x], r)
  {
    if r.Ok? { assert done + ([x] + r.value) == (done + [x]) + r.value; }
  }

  lemma ThenNothing<T>(r: Parsed<seq<T>>)
    ensures Then([], r) == r
  {
    if r.Ok? { assert [] + r.value == r.value; }
  }

  /** One element and the white space after it. */
  function ElementAt(input: Input, i: nat, depth: nat): (r: Parsed<Json>)
    requires i <= |input.text|
    ensures r.Ok? ==> i < r.next <= |input.text|
  {
    match Parsing.ParseValue(input, SkipSpace(input.text, i), depth)
    case Err(at) => Err(at)
    case Ok(v, n) => Ok(v, SkipSpace(input.text, n))
  }

  /** What the elements from `i` on come to, after one more has been read. */
  lemma ElementsNext(input: Input, i: nat, depth: nat, done: seq<Json>)
    requires i <= |input.text|
    ensures match ElementAt(input, i, depth)
            case Err(at) => Then(done, ParseElements(input, i, depth)) == Err(at)
            case Ok(v, m) =>
              Then(done, ParseElements(input, i, depth)) ==
                if At(input.text, m) == COMMA then Then(done + [v], ParseElements(input, m + 1, depth))
                else if At(input.text, m) == RIGHT_BRACKET then Ok(done + [v], m + 1)
                else Err(m)
  {
    hide ParseValue, SkipSpace;
    var r := ElementAt(input, i, depth);
    if r.Ok? && At(input.text, r.next) == COMMA { ThenThen(done, r.value, ParseElements(input, r.next + 1, depth)); }
  }

  lemma MembersNext(input: Input, i: nat, depth: nat, done: seq<Member<Json>>)
    requires i <= |input.text|
    ensures var r := ParseMember(input, i, depth);
            match r
            case Err(at) => Then(done, ParseMembers(input, i, depth)) == Err(at)
            case Ok(x, m) =>
              Then(done, ParseMembers(input, i, depth)) ==
                if At(input.text, m) == COMMA then Then(done + [x], ParseMembers(input, m + 1, depth))
                else if At(input.text, m) == RIGHT_BRACE then Ok(done + [x], m + 1)
                else Err(m)
  {
    hide ParseMember;
    var r := ParseMember(input, i, depth);
    if r.Ok? && At(input.text, r.next) == COMMA {
      ThenThen(done, r.value, ParseMembers(input, r.next + 1, depth));
    }
  }

  // ---- Unicode escapes ----

  /** `parse_hex4` from its digit `k` on, with the value `h` so far shifted to make place for it. */
  function HexFrom(text: Str, i: nat, k: nat, h: nat): nat
    requires k <= 4
    decreases 4 - k
  {
    if k == 4 then h
    else
      match HexValue(At(text, i + k))
      case None => 0
      case Some(d) => HexFrom(text, i, k + 1, if k < 3 then (h + d) * 16 else h + d)
  }

  lemma HexFromStart(text: Str, i: nat)
    ensures HexFrom(text, i, 0, 0) == ParseHex4(text, i)
  {
    hide HexValue;
    match HexValue(At(text, i))
    case None =>
    case Some(a) =>
      match HexValue(At(text, i + 1))
      case None =>
      case Some(b) =>
        match HexValue(At(text, i + 2))
        case None =>
        case Some(c) =>
          match HexValue(At(text, i + 3))
          case None =>
          case Some(d) => assert HexFrom(text, i, 3, ((a * 16 + b) * 16 + c) * 16) == ((a * 16 + b) * 16 + c) * 16 + d;
  }

  /** The loop of `parse_hex4`. */
  method ReadHex4(text: Str, i: nat) returns (h: nat)
    ensures h == ParseHex4(text, i)
  {
    HexFromStart(text, i);
    h := 0;
    var k := 0;
    while k < 4
      invariant 0 <= k <= 4 && HexFrom(text, i, k, h) == ParseHex4(text, i)
    {
      match HexValue(At(text, i + k))
      case None => return 0;
      case Some(digit) => h := if k < 3 then (h + digit) * 16 else h + digit;
      k := k + 1;
    }
  }

  /** The encoder's loop: `count` bytes are filled in from the last to the first. */
  method WriteUtf8(codepoint: nat, output: array<byte>, o: nat) returns (count: nat)
    requires codepoint < 0x110000 && o + |EncodeUtf8(codepoint)| <= output.Length
    modifies output
    ensures count == |EncodeUtf8(codepoint)|
    ensures output[..o + count] == old(output[..o]) + EncodeUtf8(codepoint)
  {
    hide Continuation, Shifted, EncodeUtf8;
    var mark := 0;
    if codepoint < 0x80 {
      count := 1;
    } else if codepoint < 0x800 {
      count, mark := 2, 0xC0;
    } else if codepoint < 0x10000 {
      count, mark := 3, 0xE0;
    } else {
      count, mark := 4, 0xF0;
    }
    EncodingParts(codepoint, count, mark);
    var c := WriteContinuation(codepoint, count, output, o);
    output[o] := mark + c;
    assert output[..o + count] == output[..o] + ([output[o]] + output[o + 1..o + count]) by { Cut(output, o, count); }
  }

  lemma Cut(a: array<byte>, o: nat, n: nat)
    requires 0 < n && o + n <= a.Length
    ensures a[..o + n] == a[..o] + ([a[o]] + a[o + 1..o + n])
  {
  }

  method WriteContinuation(codepoint: nat, count: nat, output: array<byte>, o: nat) returns (c: nat)
    requires 0 < count && o + count <= output.Length
    modifies output
    ensures output[..o] == old(output[..o])
    ensures output[o + 1..o + count] == Continuation(codepoint, count - 1) && c == Shifted(codepoint, count - 1)
  {
    var position := count - 1;
    c := codepoint;
    ghost var before := output[..o];
    while position > 0
      invariant 0 <= position < count && output[..o] == before
      invariant c == Shifted(codepoint, count - 1 - position)
      invariant Continuation(codepoint, count - 1) == Continuation(c, position) + output[o + position + 1..o + count]
    {
      output[o + position] := 0x80 + c % 64;
      assert output[o + position..o + count] == [0x80 + c % 64] + output[o + position + 1..o + count];
      c, position := c / 64, position - 1;
    }
  }

  function Shifted(c: nat, n: nat): nat {
    if n == 0 then c else Shifted(c, n - 1) / 64
  }

  lemma EncodingParts(codepoint: nat, count: nat, mark: nat)
    requires codepoint < 0x110000
    requires (count, mark) == if codepoint < 0x80 then (1, 0) else if codepoint < 0x800 then (2, 0xC0) else if codepoint < 0x10000 then (3, 0xE0) else (4, 0xF0)
    ensures mark + Shifted(codepoint, count - 1) < 256
    ensures EncodeUtf8(codepoint) == [mark + Shifted(codepoint, count - 1)] + Continuation(codepoint, count - 1)
    ensures |Continuation(codepoint, count - 1)| == count - 1
  {
    ContinuationLength(codepoint, count - 1);
    assert Shifted(codepoint, 1) == codepoint / 64;
    assert Shifted(codepoint, 2) == codepoint / 64 / 64;
    assert Shifted(codepoint, 3) == codepoint / 64 / 64 / 64;
  }

  lemma {:induction false} ContinuationLength(c: nat, n: nat)
    ensures |Continuation(c, n)| == n
  {
    if n > 0 { ContinuationLength(c / 64, n - 1); }
  }

  /** `utf16_literal_to_utf8`: the number of characters taken, or 0, and the number of bytes written. */
  method Utf16LiteralToUtf8(text: Str, i: nat, end: nat, output: array<byte>, o: nat) returns (taken: nat, count: nat)
    requires ReadUtf16(text, i, end).Some? ==> o + |EncodeUtf8(ReadUtf16(text, i, end).value.codepoint)| <= output.Length
    modifies output
    ensures taken == 0 <==> ReadUtf16(text, i, end).None?
    ensures ReadUtf16(text, i, end).None? ==> output[..] == old(output[..])
    ensures ReadUtf16(text, i, end).Some? ==>
              var l := ReadUtf16(text, i, end).value;
              && taken == l.length && count == |EncodeUtf8(l.codepoint)| && o + count <= output.Length
              && output[..o + count] == old(output[..o]) + EncodeUtf8(l.codepoint)
  {
    hide EncodeUtf8, ParseHex4;
    if end < i + 6 { return 0, 0; }
    var first := ReadHex4(text, i + 2);
    if LowSurrogate(first) { return 0, 0; }
    var codepoint := first;
    taken := 6;
    if HighSurrogate(first) {
      taken := 12;
      if end < i + 12 { return 0, 0; }
      if At(text, i + 6) != BACKSLASH || At(text, i + 7) != LETTER_U { return 0, 0; }
      var second := ReadHex4(text, i + 8);
      if !LowSurrogate(second) { return 0, 0; }
      codepoint := 0x10000 + first % 0x400 * 0x400 + second % 0x400;
    }
    count := WriteUtf8(codepoint, output, o);
  }

  // ---- the second pass over a string ----

  /** The bytes written by a place of the second pass leave room, in the size computed by the first, for those still to come. */
  ghost predicate Fits(text: Str, start: nat, p: nat, o: nat) {
    start <= p && o + EscapesBefore(text, start, p) <= p - start
  }

  lemma FitsStep(text: Str, start: nat, p: nat, o: nat, n: nat, count: nat)
    requires Fits(text, start, p, o)
    requires (n == 1 && count <= 1 && At(text, p) != BACKSLASH) || (n % 2 == 0 && count <= n / 2)
    ensures Fits(text, start, p + n, o + count)
  {
    EscapesStep(text, start, p);
    if n % 2 == 0 { EscapesHalf(text, start, p, n / 2); }
  }

  /** So nothing is written past the allocation, nor is its terminator. */
  lemma FitsAllocation(text: Str, start: nat, p: nat, o: nat, end: nat)
    requires Fits(text, start, p, o) && start > 0 && p <= end + 1 && start <= end
    ensures o + 1 <= AllocatedFor(text, start, end)
  {
    if p <= end { EscapesGrow(text, start, p, end); } else { EscapesGrow(text, start, end, p); }
  }

  lemma PrependTwice(a: seq<byte>, b: seq<byte>, r: Unescaped)
    ensures Prepend(a, Prepend(b, r)) == Prepend(a + b, r)
  {
    if r.Text? { assert a + (b + r.bytes) == (a + b) + r.bytes; }
  }

  /** One turn of the loop: `n` characters become `count` bytes, or the escape is bad. */
  method UnescapeOne(text: Str, ghost start: nat, p: nat, end: nat, output: array<byte>, o: nat) returns (n: nat, count: nat)
    requires 0 < start <= p < end < |text| && Fits(text, start, p, o) && o < AllocatedFor(text, start, end)
    requires output.Length == AllocatedFor(text, start, end)
    modifies output
    ensures n == 0 ==> Unescape(text, p, end) == BadEscape(p)
    ensures n > 0 ==> p + n <= end + 1 && Fits(text, start, p + n, o + count) && o + count < output.Length
    ensures n > 0 ==> Prepend(old(output[..o]), Unescape(text, p, end)) == Prepend(output[..o + count], Unescape(text, p + n, end))
  {
    hide Unescape, ReadUtf16, EncodeUtf8, Fits, AllocatedFor, EscapesBefore;
    UnescapeNext(text, p, end);
    ghost var before := output[..o];
    if text[p] != BACKSLASH {
      n, count := 1, 1;
      FitsStep(text, start, p, o, n, count);
      FitsAllocation(text, start, p + n, o + count, end);
      output[o] := text[p];
      assert output[..o + 1] == output[..o] + [output[o]];
      PrependTwice(before, [text[p]], Unescape(text, p + 1, end));
    } else if text[p + 1] == LETTER_U {
      n, count := UnescapeUnicode(text, start, p, end, output, o);
    } else {
      var c := SimpleEscape(text[p + 1]);
      if c == None { return 0, 0; }
      n, count := 2, 1;
      FitsStep(text, start, p, o, n, count);
      FitsAllocation(text, start, p + n, o + count, end);
      output[o] := c.value;
      assert output[..o + 1] == output[..o] + [output[o]];
      PrependTwice(before, [c.value], Unescape(text, p + 2, end));
    }
  }

  method UnescapeUnicode(text: Str, ghost start: nat, p: nat, end: nat, output: array<byte>, o: nat) returns (n: nat, count: nat)
    requires 0 < start <= p < end < |text| && Fits(text, start, p, o) && o < AllocatedFor(text, start, end)
    requires text[p] == BACKSLASH && text[p + 1] == LETTER_U
    requires output.Length == AllocatedFor(text, start, end)
    modifies output
    ensures n == 0 ==> Unescape(text, p, end) == BadEscape(p)
    ensures n > 0 ==> p + n <= end + 1 && Fits(text, start, p + n, o + count) && o + count < output.Length
    ensures n > 0 ==> Prepend(old(output[..o]), Unescape(text, p, end)) == Prepend(output[..o + count], Unescape(text, p + n, end))
  {
    hide Unescape, EncodeUtf8, Fits, AllocatedFor, EscapesBefore, ParseHex4;
    UnescapeNext(text, p, end);
    ghost var l := ReadUtf16(text, p, end);
    if l.Some? {
      var bytes := EncodeUtf8(l.value.codepoint);
      FitsStep(text, start, p, o, l.value.length, |bytes|);
      FitsAllocation(text, start, p + l.value.length, o + |bytes|, end);
      PrependTwice(output[..o], bytes, Unescape(text, p + l.value.length, end));
    }
    n, count := Utf16LiteralToUtf8(text, p, end, output, o);
  }

  class ParseBuffer {
    const input: Input
    var offset: nat
    var depth: nat

    constructor (input: Input)
      ensures this.input == input && offset == 0 && depth == 0
    {
      this.input := input;
      offset, depth := 0, 0;
    }

    /** `length`: the text and its terminator. */
    function Length(): nat {
      |input.text| + 1
    }

    /** The byte under the cursor. */
    function Current(): byte
      reads this
    {
      At(input.text, offset)
    }

    /** The step ended as the function says: a success moves the cursor on and leaves the depth as it was. */
    ghost predicate Ended<T>(r: Option<T>, spec: Parsed<T>, d: nat)
      reads this
    {
      match spec
      case Ok(v, next) => r == Some(v) && offset == next && depth == d
      case Err(at) => r == None && offset == at
    }

    method SkipWhitespace()
      requires offset <= |input.text|
      modifies this`offset
      ensures offset == SkipSpace(input.text, old(offset))
    {
      while offset < Length() && At(input.text, offset) <= 32
        invariant old(offset) <= offset <= Length()
        invariant offset <= |input.text| ==> SkipSpace(input.text, offset) == SkipSpace(input.text, old(offset))
        invariant offset == Length() ==> SkipSpace(input.text, old(offset)) == |input.text|
        decreases Length() - offset
      {
        offset := offset + 1;
      }
      if offset == Length() { offset := offset - 1; }
    }

    method ParseNumber() returns (r: Option<int32>)
      requires offset <= |input.text|
      modifies this`offset
      ensures Ended(if r.Some? then Some(Number(r.value)) else None, Parsing.ParseNumber(input, old(offset)), depth)
    {
      var i := 0;
      while i < 63 && offset + i < Length() && NumberChar(At(input.text, offset + i))
        invariant 0 <= i && offset + i <= |input.text|
        invariant NumberRun(input.text, offset, i) == NumberRun(input.text, offset, 0)
        decreases 63 - i
      {
        i := i + 1;
      }
      var (number, used) := input.strtod(input.text[offset..offset + i]);
      if used == 0 { return None; }
      offset := offset + used;
      r := Some(ToInt(number));
    }

    // ---- strings ----

    /** The first pass: the closing quote, and the escapes on the way. */
    method MeasureString(start: nat) returns (end: Option<nat>, skipped: nat)
      requires start <= |input.text| + 1
      ensures end == ScanString(input.text, start)
      ensures end.Some? ==> skipped == EscapesBefore(input.text, start, end.value)
    {
      var e := start;
      skipped := 0;
      ghost var goal := ScanString(input.text, start);
      while e < Length() && At(input.text, e) != QUOTE
        invariant start <= e && e <= Length() && ScanString(input.text, e) == goal
        invariant goal.Some? ==> e <= goal.value
        invariant goal.Some? ==> skipped + EscapesBefore(input.text, e, goal.value) == EscapesBefore(input.text, start, goal.value)
        decreases Length() - e
      {
        if At(input.text, e) == BACKSLASH {
          if e + 1 >= Length() { return None, 0; }
          skipped := skipped + 1;
          e := e + 1;
        }
        e := e + 1;
      }
      end := if e >= Length() || At(input.text, e) != QUOTE then None else Some(e);
    }

    /** `parse_string`: the room allocated after the first pass is all that the second needs, whatever the text. */
    method ParseString() returns (r: Option<Str>)
      requires offset <= |input.text|
      modifies this`offset
      ensures Ended(r, Parsing.ParseString(input, old(offset)), depth)
    {
      hide Unescape, ScanString, CString, EscapesBefore, Fits;
      var start := offset + 1;
      if Current() != QUOTE {
        offset := start;
        return None;
      }
      var measured, skipped := MeasureString(start);
      if measured == None {
        offset := start;
        return None;
      }
      var end := measured.value;
      FitsStart(input.text, start);
      FitsAllocation(input.text, start, start, 0, end);
      var output := new byte[end - offset - skipped + 1];
      assert output.Length == AllocatedFor(input.text, start, end);
      var failed, p, o := CopyString(start, end, output);
      if failed {
        offset := p;
        return None;
      }
      output[o] := 0;
      offset := end + 1;
      r := Some(CString(output[..o]));
    }

    lemma FitsStart(text: Str, start: nat)
      ensures Fits(text, start, start, 0)
    {
    }

    /** The second pass. */
    method CopyString(start: nat, end: nat, output: array<byte>) returns (failed: bool, p: nat, o: nat)
      requires 0 < start <= end < |input.text| && output.Length == AllocatedFor(input.text, start, end)
      modifies output
      ensures failed ==> Unescape(input.text, start, end) == BadEscape(p)
      ensures !failed ==> o < output.Length && Unescape(input.text, start, end) == Text(output[..o])
    {
      hide Unescape, EscapesBefore, Fits, AllocatedFor;
      failed, p, o := false, start, 0;
      FitsStart(input.text, start);
      FitsAllocation(input.text, start, p, o, end);
      PrependNothing(output[..o], Unescape(input.text, p, end));
      while p < end
        invariant !failed && start <= p <= end + 1 && Fits(input.text, start, p, o) && o < output.Length
        invariant Unescape(input.text, start, end) == Prepend(output[..o], Unescape(input.text, p, end))
        decreases end + 1 - p
      {
        var n, count := UnescapeOne(input.text, start, p, end, output, o);
        if n == 0 { return true, p, o; }
        p, o := p + n, o + count;
      }
      UnescapeDone(input.text, p, end);
    }

    lemma PrependNothing(a: seq<byte>, r: Unescaped)
      requires a == []
      ensures Prepend(a, r) == r
    {
      if r.Text? { assert a + r.bytes == r.bytes; }
    }

    lemma UnescapeDone(text: Str, p: nat, end: nat)
      requires end <= p && end < |text|
      ensures forall a {:trigger Prepend(a, Unescape(text, p, end))} :: Prepend(a, Unescape(text, p, end)) == Text(a)
    {
      forall a ensures Prepend(a, Unescape(text, p, end)) == Text(a) { assert a + [] == a; }
    }
  }
}

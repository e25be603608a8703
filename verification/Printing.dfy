/** The printer: a buffer that is reserved, written and counted step by step. */
module Printing {
  import opened Bytes
  import opened Json
  import opened Escapes
  import opened Parsing
  import opened Rendering

  class PrintBuffer {
    var buffer: array<byte>
    var length: nat
    var offset: nat
    var depth: nat
    const noalloc: bool
    const format: bool
    /** Whether a `realloc` hook is set; without it a growing buffer is moved by hand. */
    const canReallocate: bool

    ghost predicate Valid()
      reads this
    {
      && buffer.Length == length <= INT_MAX
      && (offset < length || (offset == 0 && length == 0))
    }

    /** The size the buffer can reach. */
    ghost function Capacity(): nat
      reads this
    {
      if noalloc then length else INT_MAX
    }

    /** What has been written so far. */
    ghost function Text(): seq<byte>
      requires Valid()
      reads this, buffer
    {
      buffer[..offset]
    }

    /** The buffer begins with the text and its terminator. */
    ghost predicate Holds(text: seq<byte>)
      reads this, buffer
    {
      buffer.Length == length && |text| < length && buffer[..|text|] == text && buffer[|text|] == 0
    }

    /** `r` has been printed after `start`; the offset may lag behind. */
    ghost predicate Printed(start: seq<byte>, r: Str, d: nat)
      reads this, buffer
    {
      Valid() && Holds(start + r) && |start| <= offset <= |start| + |r| && depth == d
    }

    constructor (size: nat, noalloc: bool, format: bool, canReallocate: bool)
      requires size <= INT_MAX
      ensures Valid() && fresh(buffer) && length == size && offset == 0 && depth == 0
      ensures this.noalloc == noalloc && this.format == format && this.canReallocate == canReallocate
    {
      buffer := new byte[size];
      length, offset, depth := size, 0, 0;
      this.noalloc, this.format, this.canReallocate := noalloc, format, canReallocate;
    }

    constructor Over(buffer: array<byte>, format: bool)
      requires buffer.Length <= INT_MAX
      ensures Valid() && this.buffer == buffer && length == buffer.Length && offset == 0 && depth == 0
      ensures noalloc && this.format == format
    {
      this.buffer := buffer;
      length, offset, depth := buffer.Length, 0, 0;
      noalloc, this.format, canReallocate := true, format, false;
    }

    // ---- reserving and writing ----

    /** `ensure`: makes room for `needed` bytes and one more, if the capacity allows. */
    method Ensure(needed: nat) returns (ok: bool)
      requires Valid()
      modifies this`buffer, this`length
      ensures Valid() && Capacity() == old(Capacity())
      ensures ok <==> offset + needed + 1 <= Capacity()
      ensures ok ==> offset + needed + 1 <= length && Text() == old(Text())
      ensures ok && old(length) > 0 ==> buffer[offset] == old(buffer[offset])
      ensures buffer == old(buffer) || (!noalloc && fresh(buffer))
      ensures !ok || old(offset + needed + 1 <= length) ==> unchanged(this)
    {
      if length > 0 && offset >= length { return false; }
      if needed > INT_MAX { return false; }
      var total := needed + offset + 1;
      if total <= length { return true; }
      if noalloc { return false; }
      var newsize;
      if total > INT_MAX / 2 {
        if total <= INT_MAX { newsize := INT_MAX; } else { return false; }
      } else {
        newsize := total * 2;
      }
      Grow(newsize);
      ok := true;
    }

    /**
     * A larger buffer with the same beginning: `realloc` keeps all of it, the copy by hand only what has been written
     * and one byte more, if there is one.
     */
    method Grow(newsize: nat)
      requires Valid() && length < newsize <= INT_MAX && offset + 1 < newsize && !noalloc
      modifies this`buffer, this`length
      ensures Valid() && length == newsize && fresh(buffer)
      ensures Text() == old(Text())
      ensures old(length) > 0 ==> buffer[offset] == old(buffer[offset])
    {
      var newbuffer := new byte[newsize];
      var kept := if canReallocate then length else Min(length, offset + 1);
      forall i | 0 <= i < kept { newbuffer[i] := buffer[i]; }
      length := newsize;
      buffer := newbuffer;
    }

    /** Bytes are stored from a place on. */
    method Write(at: nat, bytes: seq<byte>)
      requires Valid() && at + |bytes| <= length
      modifies buffer
      ensures Valid() && buffer[..at] == old(buffer[..at])
      ensures buffer[..at + |bytes|] == old(buffer[..at]) + bytes
    {
      forall i | 0 <= i < |bytes| { buffer[at + i] := bytes[i]; }
    }

    /** Characters and a terminator are stored from a place on. */
    method WriteTerminated(at: nat, s: Str)
      requires Valid() && at + |s| < length
      modifies buffer
      ensures Valid() && buffer[..at] == old(buffer[..at])
      ensures Holds(old(buffer[..at]) + s)
    {
      Write(at, s);
      buffer[at + |s|] := 0;
    }

    /** `update_offset`: the offset moves to the terminator. */
    method UpdateOffset(ghost start: seq<byte>, ghost r: Str)
      requires Printed(start, r, depth)
      modifies this`offset
      ensures Valid() && Text() == start + r && offset == |start| + |r| && buffer[offset] == 0
    {
      ghost var text := start + r;
      var n := 0;
      while buffer[offset + n] != 0
        invariant offset + n <= |text|
        decreases |text| - offset - n
      {
        n := n + 1;
      }
      offset := offset + n;
    }

    /** Reserved room is filled, and counted at once. */
    method Append(s: Str, reserved: nat) returns (ok: bool)
      requires Valid() && |s| <= reserved
      modifies this`buffer, this`length, this`offset, buffer
      ensures buffer == old(buffer) || (!noalloc && fresh(buffer))
      ensures Valid() && Capacity() == old(Capacity())
      ensures ok <==> old(offset) + reserved + 1 <= Capacity()
      ensures ok ==> Text() == old(Text()) + s
    {
      ok := Ensure(reserved);
      if !ok { return; }
      Write(offset, s);
      offset := offset + |s|;
    }

    /** The same with a terminator after the characters. */
    method AppendTerminated(s: Str) returns (ok: bool)
      requires Valid()
      modifies this`buffer, this`length, this`offset, buffer
      ensures buffer == old(buffer) || (!noalloc && fresh(buffer))
      ensures Valid() && Capacity() == old(Capacity())
      ensures ok <==> old(offset) + |s| + 2 <= Capacity()
      ensures ok ==> Text() == old(Text()) + s
    {
      ok := Ensure(|s| + 1);
      if !ok { return; }
      WriteTerminated(offset, s);
      offset := offset + |s|;
    }

    // ---- leaves ----

    /** A word and its terminator: `strcpy` into reserved room. */
    method PrintWord(word: Str) returns (ok: bool)
      requires Valid()
      modifies this`buffer, this`length, buffer
      ensures buffer == old(buffer) || (!noalloc && fresh(buffer))
      ensures Capacity() == old(Capacity())
      ensures ok <==> old(offset) + |word| + 2 <= old(Capacity())
      ensures ok ==> Printed(old(Text()), word, depth)
    {
      ok := Ensure(|word| + 1);
      if ok { WriteTerminated(offset, word); }
    }

    method PrintNumber(n: int32) returns (ok: bool)
      requires Valid()
      modifies this`buffer, this`length, this`offset, buffer
      ensures buffer == old(buffer) || (!noalloc && fresh(buffer))
      ensures Capacity() == old(Capacity())
      ensures ok <==> old(offset) + |PrintInt(n)| + 2 <= old(Capacity())
      ensures ok ==> Printed(old(Text()), PrintInt(n), depth)
    {
      var digits := PrintInt(n);
      ok := Ensure(|digits| + 1);
      if !ok { return; }
      WriteTerminated(offset, digits);
      offset := offset + |digits|;
    }

    /** The counting loop of `print_string_ptr`. */
    method CountEscapes(s: Str) returns (count: nat)
      ensures count == EscapeCount(s)
    {
      count := 0;
      var i := 0;
      while i < |s|
        invariant 0 <= i <= |s| && count + EscapeCount(s[i..]) == EscapeCount(s)
      {
        assert s[i..][1..] == s[i + 1..];
        if s[i] in {QUOTE, BACKSLASH, 8, 12, 10, 13, 9} {
          count := count + 1;
        } else if s[i] < 32 {
          count := count + 5;
        }
        i := i + 1;
      }
    }

    /** The character loop's body: one character, escaped if it must be. */
    method WriteEscaped(p: nat, c: cchar) returns (q: nat)
      requires Valid() && p + |EscapeChar(c)| <= length
      modifies buffer
      ensures Valid() && q == p + |EscapeChar(c)|
      ensures buffer[..q] == old(buffer[..p]) + EscapeChar(c)
    {
      hide AfterBackslash;
      if c > 31 && c != QUOTE && c != BACKSLASH {
        Write(p, [c]);
        return p + 1;
      }
      WriteEscape(p, c);
      q := p + |EscapeChar(c)|;
    }

    method WriteEscape(p: nat, c: cchar)
      requires Valid() && p + |EscapeChar(c)| <= length && !(c > 31 && c != QUOTE && c != BACKSLASH)
      modifies buffer
      ensures buffer[..p + |EscapeChar(c)|] == old(buffer[..p]) + EscapeChar(c)
    {
      hide EscapeChar, AfterBackslash;
      EscapedParts(c);
      Write(p, [BACKSLASH]);
      Write(p + 1, AfterBackslash(c));
    }

    /** The `switch` that chooses what is written after the backslash; the last case is `sprintf("u%04x")`. */
    function AfterBackslash(c: cchar): Str {
      if c == BACKSLASH then [BACKSLASH]
      else if c == QUOTE then [QUOTE]
      else if c == 8 then [LETTER_B]
      else if c == 12 then [LETTER_F]
      else if c == 10 then [LETTER_N]
      else if c == 13 then [LETTER_R]
      else if c == 9 then [LETTER_T]
      else [LETTER_U, 48, 48, HexDigit(c / 16), HexDigit(c % 16)]
    }

    lemma EscapedParts(c: cchar)
      requires !(c > 31 && c != QUOTE && c != BACKSLASH)
      ensures EscapeChar(c) == [BACKSLASH] + AfterBackslash(c)
    {
      hide HexDigit;
    }

    lemma EscapeNext(s: Str, i: nat)
      requires i < |s|
      ensures EscapeText(s[i..]) == EscapeChar(s[i]) + EscapeText(s[i + 1..])
    {
      assert s[i..][1..] == s[i + 1..];
    }

    /** The character loop, from the place after the opening quote. */
    method WriteText(at: nat, s: Str) returns (p: nat)
      requires Valid() && at + |EscapeText(s)| <= length
      modifies buffer
      ensures Valid() && p == at + |EscapeText(s)|
      ensures buffer[..p] == old(buffer[..at]) + EscapeText(s)
    {
      hide EscapeText, EscapeChar;
      ghost var start := buffer[..at];
      p := at;
      var i := 0;
      assert s[0..] == s;
      while i < |s|
        invariant 0 <= i <= |s| && Valid()
        invariant p + |EscapeText(s[i..])| == at + |EscapeText(s)|
        invariant p <= length && buffer[..p] + EscapeText(s[i..]) == start + EscapeText(s)
      {
        EscapeNext(s, i);
        p := WriteEscaped(p, s[i]);
        i := i + 1;
      }
      NoText(s[i..]);
    }

    lemma NoText(s: Str)
      requires s == []
      ensures EscapeText(s) == []
    {
    }

    /** `print_string_ptr` */
    method PrintString(s: Str) returns (ok: bool)
      requires Valid()
      modifies this`buffer, this`length, buffer
      ensures buffer == old(buffer) || (!noalloc && fresh(buffer))
      ensures Capacity() == old(Capacity())
      ensures ok <==> old(offset) + |Literal(s)| + 2 <= old(Capacity())
      ensures ok ==> Printed(old(Text()), Literal(s), depth)
    {
      hide EscapeText, EscapeCount;
      ghost var start := Text();
      var escapes := CountEscapes(s);
      EscapeCountExact(s);
      var outputLength := |s| + escapes;
      ok := Ensure(outputLength + 3);
      if !ok { return; }
      if escapes == 0 {
        WriteTerminated(offset, [QUOTE] + s + [QUOTE]);
        return;
      }
      WriteQuoted(s);
    }

    method WriteQuoted(s: Str)
      requires Valid() && offset + |Literal(s)| < length
      modifies buffer
      ensures Printed(old(Text()), Literal(s), depth)
    {
      hide EscapeText;
      Write(offset, [QUOTE]);
      var p := WriteText(offset + 1, s);
      WriteTerminated(p, [QUOTE]);
    }

    // ---- containers ----

    method PrintValue(v: Json) returns (ok: bool)
      requires Valid()
      modifies this, buffer
      ensures buffer == old(buffer) || (!noalloc && fresh(buffer))
      ensures Capacity() == old(Capacity())
      ensures ok <==> old(offset) + |Render(v, format, old(depth))| + 2 <= old(Capacity())
      ensures ok ==> Printed(old(Text()), Render(v, format, old(depth)), old(depth))
      decreases v, 1
    {
      hide RenderItems, RenderMembers;
      match v
      case Null => ok := PrintWord(NULL_WORD);
      case False => ok := PrintWord(FALSE_WORD);
      case True => ok := PrintWord(TRUE_WORD);
      case Number(n) => ok := PrintNumber(n);
      case String(s) => ok := PrintString(s);
      case Array(items) => ok := PrintArray(items);
      case Object(members) => ok := PrintObject(members);
    }

    method PrintArray(items: seq<Json>) returns (ok: bool)
      requires Valid()
      modifies this, buffer
      ensures buffer == old(buffer) || (!noalloc && fresh(buffer))
      ensures Capacity() == old(Capacity())
      ensures ok <==> old(offset) + |Render(Array(items), format, old(depth))| + 2 <= old(Capacity())
      ensures ok ==> Printed(old(Text()), Render(Array(items), format, old(depth)), old(depth))
      decreases items, 2
    {
      hide RenderItems, Render, Printed, Holds;
      ghost var start, all := Text(), RenderItems(items, format, depth + 1);
      ArrayText(items, format, depth, start);
      ok := Append([LEFT_BRACKET], 1);
      if !ok { return; }
      depth := depth + 1;
      ok := PrintElements(items, start + [LEFT_BRACKET] + all);
      if !ok { return; }
      ok := Ensure(2);
      if !ok { return; }
      ArrayEnd(start, Render(Array(items), format, depth - 1));
    }

    lemma ArrayText(items: seq<Json>, format: bool, d: nat, start: seq<byte>)
      ensures var all := RenderItems(items, format, d + 1);
              && |Render(Array(items), format, d)| == |all| + 2
              && start + Render(Array(items), format, d) == (start + [LEFT_BRACKET] + all) + [RIGHT_BRACKET]
    {
      hide RenderItems;
    }

    /** The closing bracket, in reserved room; `r` is what has then been printed after `start`. */
    method ArrayEnd(ghost start: seq<byte>, ghost r: Str)
      requires Valid() && offset + 1 < length && depth > 0
      requires start + r == Text() + [RIGHT_BRACKET] && |start| <= offset
      modifies this`depth, buffer
      ensures depth == old(depth) - 1 && Printed(start, r, depth)
    {
      WriteTerminated(offset, [RIGHT_BRACKET]);
      depth := depth - 1;
    }

    /** The loop over the elements. */
    method PrintElements(items: seq<Json>, ghost whole: seq<byte>) returns (ok: bool)
      requires Valid() && Text() + RenderItems(items, format, depth) == whole
      modifies this, buffer
      ensures buffer == old(buffer) || (!noalloc && fresh(buffer))
      ensures Capacity() == old(Capacity())
      ensures !ok ==> |whole| + 3 > Capacity()
      ensures ok ==> Valid() && depth == old(depth) && Text() == whole
      decreases items, 1
    {
      hide RenderItems;
      ok := true;
      var i := 0;
      assert items[0..] == items;
      while i < |items|
        invariant 0 <= i <= |items| && ok && Valid() && depth == old(depth) && Capacity() == old(Capacity())
        invariant buffer == old(buffer) || (!noalloc && fresh(buffer))
        invariant Text() + RenderItems(items[i..], format, depth) == whole
      {
        ok := PrintElement(items, i, whole);
        if !ok { return; }
        i := i + 1;
      }
      NothingLeft(items[i..], format, depth);
    }

    lemma NothingLeft(items: seq<Json>, format: bool, d: nat)
      requires items == []
      ensures RenderItems(items, format, d) == []
    {
    }

    /** One element and the separator after it; `whole` is what will have been printed after the last. */
    method PrintElement(items: seq<Json>, i: nat, ghost whole: seq<byte>) returns (ok: bool)
      requires Valid() && i < |items|
      requires Text() + RenderItems(items[i..], format, depth) == whole
      modifies this, buffer
      ensures buffer == old(buffer) || (!noalloc && fresh(buffer))
      ensures Capacity() == old(Capacity())
      ensures !ok ==> |whole| + 3 > Capacity()
      ensures ok ==> Valid() && depth == old(depth) && Text() + RenderItems(items[i + 1..], format, depth) == whole
      decreases items, 0
    {
      hide Render, RenderItems;
      ghost var start, rest := Text(), RenderItems(items[i + 1..], format, depth);
      ghost var r, separator := Render(items[i], format, depth), if i + 1 == |items| then [] else Separator(format);
      ItemsNext(items, i, format, depth);
      ok := PrintValue(items[i]);
      if !ok { return; }
      UpdateOffset(start, r);
      if i + 1 < |items| {
        ok := AppendTerminated(Separator(format));
        if !ok { return; }
      }
      assert start + (r + (separator + rest)) == ((start + r) + separator) + rest;
    }

    lemma ItemsNext(items: seq<Json>, i: nat, format: bool, d: nat)
      requires i < |items|
      ensures RenderItems(items[i..], format, d) ==
              Render(items[i], format, d) +
              ((if i + 1 == |items| then [] else Separator(format)) + RenderItems(items[i + 1..], format, d))
    {
      hide Render;
      assert items[i..][1..] == items[i + 1..];
    }

    method PrintObject(members: seq<Member<Json>>) returns (ok: bool)
      requires Valid()
      modifies this, buffer
      ensures buffer == old(buffer) || (!noalloc && fresh(buffer))
      ensures Capacity() == old(Capacity())
      ensures ok <==> old(offset) + |Render(Object(members), format, old(depth))| + 2 <= old(Capacity())
      ensures ok ==> Printed(old(Text()), Render(Object(members), format, old(depth)), old(depth))
      decreases members, 2
    {
      hide RenderMembers, Render, Printed, Holds, Opening, Closing;
      ghost var start, all := Text(), RenderMembers(members, format, depth + 1);
      ObjectText(members, format, depth, start);
      OpeningAndClosing(depth);
      ok := Append(Opening(format), |Opening(format)| + 1);
      if !ok { return; }
      depth := depth + 1;
      ok := PrintMembers(members, start + Opening(format) + all);
      if !ok { return; }
      ok := Ensure(if format then depth + 1 else 2);
      if !ok { return; }
      PrintClosing(start, Render(Object(members), format, depth - 1));
    }

    function Opening(format: bool): Str {
      if format then [LEFT_BRACE, NEWLINE] else [LEFT_BRACE]
    }

    lemma OpeningAndClosing(d: nat)
      ensures |Opening(format)| == (if format then 2 else 1) && |Closing(format, d)| == (if format then d + 1 else 1)
    {
    }

    function Closing(format: bool, d: nat): Str {
      (if format then Tabs(d) else []) + [RIGHT_BRACE]
    }

    lemma ObjectText(members: seq<Member<Json>>, format: bool, d: nat, start: seq<byte>)
      ensures var all := RenderMembers(members, format, d + 1);
              && |Render(Object(members), format, d)| == |Opening(format)| + |all| + |Closing(format, d)|
              && start + Render(Object(members), format, d) == (start + Opening(format) + all) + Closing(format, d)
    {
      hide RenderMembers, Tabs;
    }

    /** The loop over the members. */
    method PrintMembers(members: seq<Member<Json>>, ghost whole: seq<byte>) returns (ok: bool)
      requires Valid() && Text() + RenderMembers(members, format, depth) == whole
      modifies this, buffer
      ensures buffer == old(buffer) || (!noalloc && fresh(buffer))
      ensures Capacity() == old(Capacity())
      ensures !ok ==> |whole| + 3 > Capacity()
      ensures ok ==> Valid() && depth == old(depth) && Text() == whole
      decreases members, 1
    {
      hide RenderMembers;
      ok := true;
      var i := 0;
      assert members[0..] == members;
      while i < |members|
        invariant 0 <= i <= |members| && ok && Valid() && depth == old(depth) && Capacity() == old(Capacity())
        invariant buffer == old(buffer) || (!noalloc && fresh(buffer))
        invariant Text() + RenderMembers(members[i..], format, depth) == whole
      {
        ok := PrintMember(members, i, whole);
        if !ok { return; }
        i := i + 1;
      }
      NoMembersLeft(members[i..], format, depth);
    }

    lemma NoMembersLeft(members: seq<Member<Json>>, format: bool, d: nat)
      requires members == []
      ensures RenderMembers(members, format, d) == []
    {
    }

    /** The indentation and the closing brace, in reserved room. */
    method PrintClosing(ghost start: seq<byte>, ghost r: Str)
      requires Valid() && depth > 0 && offset + (if format then depth + 1 else 2) + 1 <= length
      requires start + r == Text() + Closing(format, depth - 1) && |start| <= offset
      modifies this`depth, buffer
      ensures depth == old(depth) - 1 && Printed(start, r, depth)
    {
      var p := offset;
      if format {
        p := WriteTabs(offset, depth - 1);
      }
      WriteTerminated(p, [RIGHT_BRACE]);
      depth := depth - 1;
      assert format ==> old(Text()) + Tabs(depth) + [RIGHT_BRACE] == old(Text()) + Closing(format, depth);
      assert !format ==> old(Text()) + [RIGHT_BRACE] == old(Text()) + Closing(format, depth);
    }

    method WriteTabs(at: nat, n: nat) returns (p: nat)
      requires Valid() && at + n <= length
      modifies buffer
      ensures Valid() && p == at + n && buffer[..p] == old(buffer[..at]) + Tabs(n)
    {
      p := at;
      var i := 0;
      while i < n
        invariant 0 <= i <= n && Valid() && p == at + i
        invariant buffer[..p] == old(buffer[..at]) + Tabs(i)
      {
        Write(p, [TAB]);
        p, i := p + 1, i + 1;
      }
    }

    /** One member with its indentation and what follows it; `whole` is what will have been printed after the last. */
    method PrintMember(members: seq<Member<Json>>, i: nat, ghost whole: seq<byte>) returns (ok: bool)
      requires Valid() && i < |members|
      requires Text() + RenderMembers(members[i..], format, depth) == whole
      modifies this, buffer
      ensures buffer == old(buffer) || (!noalloc && fresh(buffer))
      ensures Capacity() == old(Capacity())
      ensures !ok ==> |whole| + 3 > Capacity()
      ensures ok ==> Valid() && depth == old(depth) && Text() + RenderMembers(members[i + 1..], format, depth) == whole
      decreases members, 0
    {
      hide Render, RenderMembers, Literal, AfterMember, KeyPart, Holds;
      MembersNext(members, i, format, depth, Text());
      var end := AfterMember(i + 1 == |members|, format);
      ok := PrintKey(members[i].key);
      if !ok { return; }
      ghost var before := Text();
      ok := PrintValue(members[i].value);
      if !ok { return; }
      UpdateOffset(before, Render(members[i].value, format, depth));
      ok := AppendTerminated(end);
    }

    /** The indentation, the key and the colon. */
    function KeyPart(key: Str, format: bool, d: nat): Str {
      (if format then Tabs(d) else []) + (Literal(key) + AfterKey(format))
    }

    lemma MembersNext(members: seq<Member<Json>>, i: nat, format: bool, d: nat, start: seq<byte>)
      requires i < |members|
      ensures var key, value := KeyPart(members[i].key, format, d), Render(members[i].value, format, d);
              var end, rest := AfterMember(i + 1 == |members|, format), RenderMembers(members[i + 1..], format, d);
              && start + RenderMembers(members[i..], format, d) == (((start + key) + value) + end) + rest
              && |RenderMembers(members[i..], format, d)| == |key| + |value| + |end| + |rest|
    {
      hide Render, Literal, Tabs, AfterMember, AfterKey, RenderMembers;
      var tabs, literal, colon := if format then Tabs(d) else [], Literal(members[i].key), AfterKey(format);
      var value, end, rest := Render(members[i].value, format, d), AfterMember(i + 1 == |members|, format), RenderMembers(members[i + 1..], format, d);
      Unfold(members, i, format, d);
      Regroup(start, tabs, literal, colon, value, end, rest);
    }

    lemma Unfold(members: seq<Member<Json>>, i: nat, format: bool, d: nat)
      requires i < |members|
      ensures RenderMembers(members[i..], format, d) ==
              (if format then Tabs(d) else []) +
              (Literal(members[i].key) +
               (AfterKey(format) +
                (Render(members[i].value, format, d) +
                 (AfterMember(i + 1 == |members|, format) + RenderMembers(members[i + 1..], format, d)))))
    {
      hide Render, Literal, Tabs, AfterMember, AfterKey;
      assert members[i..][1..] == members[i + 1..];
    }

    lemma Regroup(start: seq<byte>, tabs: Str, literal: Str, colon: Str, value: Str, end: Str, rest: Str)
      ensures start + (tabs + (literal + (colon + (value + (end + rest))))) ==
              (((start + (tabs + (literal + colon))) + value) + end) + rest
    {
    }

    method Indent() returns (ok: bool)
      requires Valid()
      modifies this`buffer, this`length, this`offset, buffer
      ensures buffer == old(buffer) || (!noalloc && fresh(buffer))
      ensures Valid() && Capacity() == old(Capacity())
      ensures ok <==> old(offset) + depth + 1 <= Capacity()
      ensures ok ==> Text() == old(Text()) + Tabs(depth)
    {
      ok := Ensure(depth);
      if !ok { return; }
      offset := WriteTabs(offset, depth);
    }

    method PrintKey(key: Str) returns (ok: bool)
      requires Valid()
      modifies this, buffer
      ensures buffer == old(buffer) || (!noalloc && fresh(buffer))
      ensures Capacity() == old(Capacity())
      ensures !ok ==> old(offset) + |KeyPart(key, format, old(depth))| + 1 > Capacity()
      ensures ok ==> Valid() && depth == old(depth) && Text() == old(Text()) + KeyPart(key, format, depth)
    {
      hide Literal, Holds;
      ghost var start := Text();
      ok := true;
      if format { ok := Indent(); }
      if !ok { return; }
      ghost var indented := Text();
      ok := PrintString(key);
      if !ok { return; }
      UpdateOffset(indented, Literal(key));
      ok := Append(AfterKey(format), |AfterKey(format)|);
      if !ok { return; }
      KeyTogether(start, indented, key);
    }

    lemma KeyTogether(start: seq<byte>, indented: seq<byte>, key: Str)
      requires indented == if format then start + Tabs(depth) else start
      ensures (indented + Literal(key)) + AfterKey(format) == start + KeyPart(key, format, depth)
    {
      hide Literal, AfterKey, Tabs;
    }
  }

  // ---- the entry points ----

  /** The array is exactly the text and its terminator. */
  ghost predicate IsText(a: array<byte>, text: seq<byte>)
    reads a
  {
    a.Length == |text| + 1 && a[..|text|] == text && a[|text|] == 0
  }

  lemma NothingBefore(start: seq<byte>, r: Str)
    requires start == []
    ensures start + r == r
  {
  }

  function Min(a: nat, b: nat): nat {
    if a < b then a else b
  }

  /** `cJSON_Print` and `cJSON_PrintUnformatted`: the rendering, in an array of its own, whenever it and two bytes fit an `int`. */
  method Print(v: Json, format: bool, canReallocate: bool) returns (printed: array?<byte>)
    ensures printed != null <==> |Render(v, format, 0)| + 2 <= INT_MAX
    ensures printed != null ==> fresh(printed) && IsText(printed, Render(v, format, 0))
  {
    hide Render;
    var p := new PrintBuffer(256, false, format, canReallocate);
    ghost var r := Render(v, format, 0);
    NothingBefore(p.Text(), r);
    var ok := p.PrintValue(v);
    if !ok { return null; }
    p.UpdateOffset([], r);
    printed := TakeText(p);
  }

  /** The buffer cut down to the text and its terminator: by `realloc`, or copied to an array of that size. */
  method TakeText(p: PrintBuffer) returns (printed: array<byte>)
    requires p.Valid() && p.offset < p.length && p.buffer[p.offset] == 0
    ensures fresh(printed) && IsText(printed, p.Text())
  {
    printed := new byte[p.offset + 1];
    var kept := if p.canReallocate then p.offset + 1 else Min(p.length, p.offset + 1);
    forall i | 0 <= i < kept { printed[i] := p.buffer[i]; }
    if !p.canReallocate { printed[p.offset] := 0; }
    assert printed[..p.offset] == p.Text();
  }

  /** `cJSON_PrintBuffered`: the same rendering at the head of the buffer, however small that began. */
  method PrintBuffered(v: Json, prebuffer: int, format: bool, canReallocate: bool) returns (printed: array?<byte>)
    requires prebuffer <= INT_MAX
    ensures printed != null <==> prebuffer >= 0 && |Render(v, format, 0)| + 2 <= INT_MAX
    ensures printed != null ==>
              var n := |Render(v, format, 0)|;
              fresh(printed) && n < printed.Length && printed[..n] == Render(v, format, 0) && printed[n] == 0
  {
    hide Render;
    if prebuffer < 0 { return null; }
    var p := new PrintBuffer(prebuffer, false, format, canReallocate);
    NothingBefore(p.Text(), Render(v, format, 0));
    var ok := p.PrintValue(v);
    printed := if ok then p.buffer else null;
  }

  /** `cJSON_PrintPreallocated` succeeds exactly when the buffer has two bytes more than the rendering. */
  method PrintPreallocated(v: Json, buffer: array?<byte>, length: int, format: bool) returns (ok: bool)
    requires length <= INT_MAX && (buffer != null && length >= 0 ==> buffer.Length == length)
    modifies buffer
    ensures ok <==> buffer != null && length >= |Render(v, format, 0)| + 2
    ensures ok ==>
              var n := |Render(v, format, 0)|;
              n < buffer.Length && buffer[..n] == Render(v, format, 0) && buffer[n] == 0
  {
    hide Render;
    if length < 0 || buffer == null { return false; }
    var p := new PrintBuffer.Over(buffer, format);
    NothingBefore(p.Text(), Render(v, format, 0));
    ok := p.PrintValue(v);
  }
}

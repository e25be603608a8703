/** The parser takes exactly the texts of the grammar, as the values that they spell. */
module Acceptance {
  import opened Bytes
  import opened Json
  import opened Pointers
  import opened Escapes
  import opened Spellings
  import opened Parsing
  import opened Layouts
  import opened Reading
  import opened Grammar

  // ---- the first pass over a literal ----

  lemma {:induction false} ScanExact(text: Str, i: nat, end: nat)
    requires i <= end < |text|
    ensures ScanString(text, i) == Some(end) <==> text[end] == QUOTE && Unquoted(text[i..end])
    decreases end - i
  {
    var s := text[i..end];
    if i == end {
      assert s == [];
    } else if text[i] == BACKSLASH {
      if i + 2 <= end {
        assert s[2..] == text[i + 2..end];
        ScanExact(text, i + 2, end);
      } else {
        assert |s| == 1;
        ScanBeyond(text, i + 2, end);
      }
    } else if text[i] != QUOTE {
      assert s[1..] == text[i + 1..end];
      ScanExact(text, i + 1, end);
    }
  }

  lemma ScanBeyond(text: Str, i: nat, end: nat)
    requires end < i <= |text| + 1
    ensures ScanString(text, i) != Some(end)
  {
  }

  // ---- the second pass ----

  lemma SameDigits(c: byte)
    ensures c != 0 ==> HexValue(c) == DigitOf(c)
    ensures HexValue(0) == None
  {
  }

  lemma SameEscapes(c: cchar)
    ensures SimpleEscape(c) == EscapeOf(c) && (c == LETTER_U ==> EscapeOf(c) == None)
  {
  }

  lemma SameCode(text: Str, i: nat, hex: Str)
    requires |hex| == 4 && Here(text, i, hex)
    ensures ParseHex4(text, i) == CodeOf(hex) < 0x10000
  {
    HereAt(text, i, hex);
    assert At(text, i + 0) == hex[0] && At(text, i + 1) == hex[1] && At(text, i + 2) == hex[2] && At(text, i + 3) == hex[3];
    SameDigits(hex[0]);
    SameDigits(hex[1]);
    SameDigits(hex[2]);
    SameDigits(hex[3]);
    CodeBounded(hex);
  }

  lemma EncodedBytes(u: nat)
    requires u < 0x110000
    ensures if u == 0 then EncodeUtf8(u) == [0] else EncodeUtf8(u) == Utf8(u)
  {
    if u != 0 { EncodeIsUtf8(u); }
  }

  /** The code units that the reader takes in are a stroke, and the other way round. */
  lemma UnitStroke(text: Str, i: nat, end: nat, hex: Str)
    requires |hex| == 4 && i + 6 <= end < |text| && Here(text, i, UNIT + hex) && !(0xD800 <= CodeOf(hex) < 0xE000)
    ensures Unescape(text, i, end) == Prepend(StrokeBytes(Unit(hex)), Unescape(text, i + 6, end))
  {
    hide CodeOf, ParseHex4, EncodeUtf8, Unescape, Here;
    HereSplit(text, i, UNIT, hex);
    HereAt(text, i, UNIT);
    assert At(text, i + 0) == BACKSLASH && At(text, i + 1) == LETTER_U;
    SameCode(text, i + 2, hex);
    EncodedBytes(CodeOf(hex));
    UnescapeUnits(text, i, end, 6, CodeOf(hex));
  }

  lemma SurrogatesStroke(text: Str, i: nat, end: nat, high: Str, low: Str)
    requires IsStroke(Surrogates(high, low)) && i + 12 <= end < |text| && Here(text, i, UNIT + (high + (UNIT + low)))
    ensures Unescape(text, i, end) == Prepend(StrokeBytes(Surrogates(high, low)), Unescape(text, i + 12, end))
  {
    hide CodeOf, ParseHex4, EncodeUtf8, Unescape, Here, Utf8;
    HereSplit(text, i, UNIT, high + (UNIT + low));
    HereAt(text, i, UNIT);
    assert At(text, i + 0) == BACKSLASH && At(text, i + 1) == LETTER_U;
    HereSplit(text, i + 2, high, UNIT + low);
    HereSplit(text, i + 6, UNIT, low);
    HereAt(text, i + 6, UNIT);
    assert At(text, i + 6 + 0) == BACKSLASH && At(text, i + 6 + 1) == LETTER_U;
    SameCode(text, i + 2, high);
    SameCode(text, i + 8, low);
    var a, b := CodeOf(high), CodeOf(low);
    assert a % 0x400 == a - 0xD800 && b % 0x400 == b - 0xDC00;
    var u := 0x10000 + a % 0x400 * 0x400 + b % 0x400;
    EncodedBytes(u);
    UnescapeUnits(text, i, end, 12, u);
  }

  /** One stroke, read by the second pass. */
  lemma StrokeRead(text: Str, i: nat, end: nat, s: Stroke)
    requires IsStroke(s) && i < end < |text| && Here(text, i, StrokeText(s))
    requires i + |StrokeText(s)| <= end || s.Escape?
    ensures Unescape(text, i, end) == Prepend(StrokeBytes(s), Unescape(text, i + |StrokeText(s)|, end))
  {
    hide CodeOf, EncodeUtf8, ReadUtf16, Utf8;
    match s
    case Raw(c) => FirstChar(text, i, [c]);
    case Escape(c) =>
      HereAt(text, i, [BACKSLASH, c]);
      assert At(text, i + 0) == BACKSLASH && At(text, i + 1) == c;
      SameEscapes(c);
    case Unit(hex) => UnitStroke(text, i, end, hex);
    case Surrogates(high, low) => SurrogatesStroke(text, i, end, high, low);
  }

  /** The text of the strokes ends where the literal does, or takes in its closing quote as escaped. */
  predicate Reaches(text: Str, i: nat, end: nat, strokes: seq<Stroke>) {
    && i <= end < |text| && AllStrokes(strokes) && Here(text, i, StrokesText(strokes))
    && (|| i + |StrokesText(strokes)| == end
        || (i + |StrokesText(strokes)| == end + 1 && strokes != [] && strokes[|strokes| - 1] == Escape(QUOTE)))
  }

  lemma {:induction false} StrokesRead(text: Str, i: nat, end: nat, strokes: seq<Stroke>)
    requires Reaches(text, i, end, strokes)
    ensures Unescape(text, i, end) == Text(StrokesBytes(strokes))
    decreases |strokes|
  {
    hide Here, IsStroke, StrokeText, StrokeBytes, Unescape;
    if strokes == [] {
      NothingToUnescape(text, i, end);
    } else {
      var s, rest := strokes[0], strokes[1..];
      assert forall k | 0 <= k < |rest| :: rest[k] == strokes[k + 1];
      HereSplit(text, i, StrokeText(s), StrokesText(rest));
      StrokeLength(s);
      if rest == [] {
        NothingToUnescape(text, i + |StrokeText(s)|, end);
        StrokeRead(text, i, end, s);
      } else {
        MoreStrokes(rest);
        StrokeRead(text, i, end, s);
        StrokesRead(text, i + |StrokeText(s)|, end, rest);
      }
    }
  }

  lemma NothingToUnescape(text: Str, i: nat, end: nat)
    requires end <= i && end < |text|
    ensures Unescape(text, i, end) == Text([])
  {
  }

  lemma StrokeLength(s: Stroke)
    ensures |StrokeText(s)| >= 1 && (s.Escape? ==> |StrokeText(s)| == 2)
  {
  }

  /** If strokes remain, they are longer than what may overrun. */
  lemma MoreStrokes(strokes: seq<Stroke>)
    requires strokes != []
    ensures |StrokesText(strokes)| >= 1
    ensures strokes[|strokes| - 1].Escape? ==> |StrokesText(strokes)| >= 2
  {
    StrokeLength(strokes[0]);
    if |strokes| > 1 { MoreStrokes(strokes[1..]); }
  }

  /** What the second pass takes is made of strokes. */
  lemma {:induction false} StrokesFound(text: Str, i: nat, end: nat) returns (strokes: seq<Stroke>)
    requires i <= end < |text| && text[end] == QUOTE && Unescape(text, i, end).Text?
    ensures Reaches(text, i, end, strokes)
    decreases end - i
  {
    hide Here, IsStroke, StrokeText, StrokeBytes;
    if i == end {
      strokes := [];
      EmptyStrokes(text, i);
    } else {
      var s := StrokeFound(text, i, end);
      var j := i + |StrokeText(s)|;
      StrokeLength(s);
      StrokeRead(text, i, end, s);
      if j <= end {
        var rest := StrokesFound(text, j, end);
        strokes := [s] + rest;
        Together(text, i, end, s, rest);
      } else {
        strokes := [s];
        OneStroke(text, i, s);
      }
    }
  }

  lemma EmptyStrokes(text: Str, i: nat)
    requires i < |text|
    ensures Reaches(text, i, i, [])
  {
  }

  lemma Together(text: Str, i: nat, end: nat, s: Stroke, rest: seq<Stroke>)
    requires IsStroke(s) && Here(text, i, StrokeText(s)) && Reaches(text, i + |StrokeText(s)|, end, rest) && i <= end
    ensures Reaches(text, i, end, [s] + rest)
  {
    hide IsStroke, StrokeText;
    var all := [s] + rest;
    assert all[1..] == rest;
    assert forall k | 0 <= k < |all| :: IsStroke(all[k]);
    HereTogether(text, i, StrokeText(s), StrokesText(rest));
  }

  lemma HereTogether(text: Str, i: nat, a: Str, b: Str)
    requires Here(text, i, a) && Here(text, i + |a|, b)
    ensures Here(text, i, a + b)
  {
  }

  lemma OneStroke(text: Str, i: nat, s: Stroke)
    requires s == Escape(QUOTE) && IsStroke(s) && Here(text, i, StrokeText(s))
    ensures i + 1 < |text| && Reaches(text, i, i + 1, [s])
  {
    assert [s][1..] == [];
    assert StrokesText([s]) == StrokeText(s) + [];
    assert StrokeText(s) + [] == StrokeText(s);
  }

  /** The next stroke. */
  lemma StrokeFound(text: Str, i: nat, end: nat) returns (s: Stroke)
    requires i < end < |text| && text[end] == QUOTE && Unescape(text, i, end).Text?
    ensures IsStroke(s) && Here(text, i, StrokeText(s))
    ensures i + |StrokeText(s)| <= end || (s == Escape(QUOTE) && i + 1 == end)
  {
    hide EncodeUtf8, Utf8;
    UnescapeNext(text, i, end);
    if text[i] != BACKSLASH {
      s := Raw(text[i]);
    } else if text[i + 1] == LETTER_U {
      s := UnitFound(text, i, end);
    } else {
      s := Escape(text[i + 1]);
      SameEscapes(text[i + 1]);
    }
  }

  lemma UnitFound(text: Str, i: nat, end: nat) returns (s: Stroke)
    requires i < end < |text| && text[i] == BACKSLASH && i + 1 < |text| && text[i + 1] == LETTER_U && ReadUtf16(text, i, end).Some?
    ensures IsStroke(s) && Here(text, i, StrokeText(s)) && i + |StrokeText(s)| <= end
  {
    hide ParseHex4, CodeOf;
    var hex := text[i + 2..i + 6];
    SameCode(text, i + 2, hex);
    if HighSurrogate(CodeOf(hex)) {
      var low := text[i + 8..i + 12];
      SameCode(text, i + 8, low);
      s := Surrogates(hex, low);
      assert text[i..i + 12] == UNIT + (hex + (UNIT + low));
    } else {
      s := Unit(hex);
      assert text[i..i + 6] == UNIT + hex;
    }
  }

  /** A string is taken exactly if it is spelled, with the bytes it is spelled for. */
  lemma StringExact(input: Input, i: nat, n: nat, s: Str)
    requires i <= |input.text|
    ensures ParseString(input, i) == Ok(s, n) <==> StringSpelled(input.text, i, n, s)
  {
    if ParseString(input, i) == Ok(s, n) { StringSound(input, i, n, s); }
    if StringSpelled(input.text, i, n, s) { StringTaken(input, i, n, s); }
  }

  lemma StringSound(input: Input, i: nat, n: nat, s: Str)
    requires i <= |input.text| && ParseString(input, i) == Ok(s, n)
    ensures StringSpelled(input.text, i, n, s)
  {
    hide Unescape, ScanString, CString, Unquoted;
    var text, end := input.text, n - 1;
    ScanExact(text, i + 1, end);
    var strokes := StrokesFound(text, i + 1, end);
    StrokesRead(text, i + 1, end, strokes);
    Between(text, i + 1, end, strokes);
  }

  lemma Between(text: Str, i: nat, end: nat, strokes: seq<Stroke>)
    requires i <= end < |text| && text[end] == QUOTE
    ensures Reaches(text, i, end, strokes) <==> Strokes(text[i..end], strokes)
  {
    var t, body := StrokesText(strokes), text[i..end];
    assert body + [QUOTE] == text[i..end + 1];
  }

  lemma StringTaken(input: Input, i: nat, n: nat, s: Str)
    requires i <= |input.text| && StringSpelled(input.text, i, n, s)
    ensures ParseString(input, i) == Ok(s, n)
  {
    hide Unescape, ScanString, CString, Unquoted, StrokesText, StrokesBytes, AllStrokes;
    var text := input.text;
    var strokes :| Strokes(text[i + 1..n - 1], strokes) && s == CString(StrokesBytes(strokes));
    LiteralTaken(text, i + 1, n - 1, strokes);
  }

  lemma LiteralTaken(text: Str, i: nat, end: nat, strokes: seq<Stroke>)
    requires i <= end < |text| && text[end] == QUOTE && Unquoted(text[i..end]) && Strokes(text[i..end], strokes)
    ensures ScanString(text, i) == Some(end) && Unescape(text, i, end) == Text(StrokesBytes(strokes))
  {
    hide Unescape, ScanString, Unquoted, StrokesText, StrokesBytes;
    ScanExact(text, i, end);
    Between(text, i, end, strokes);
    StrokesRead(text, i, end, strokes);
  }

  // ---- numbers ----

  lemma SameNumberByte(c: byte)
    ensures NumberChar(c) <==> NumberByte(c)
  {
  }

  lemma {:induction false} RunIsLongest(text: Str, i: nat, k: nat)
    requires i + k <= |text| && k <= 63 && forall j | i <= j < i + k :: NumberByte(text[j])
    ensures LongestRun(text, i, i + NumberRun(text, i, k))
    decreases |text| - i - k
  {
    if i + k < |text| { SameNumberByte(text[i + k]); }
    if k < 63 && i + k < |text| && NumberChar(text[i + k]) { RunIsLongest(text, i, k + 1); }
  }

  lemma OneLongest(text: Str, i: nat, m: nat, n: nat)
    requires LongestRun(text, i, m) && LongestRun(text, i, n)
    ensures m == n
  {
  }

  lemma ConvertsOnce(r: real, x: int)
    ensures Converts(r, x) <==> x == ToInt(r)
  {
  }

  lemma NumberExact(input: Input, i: nat, n: nat, v: Json)
    requires i < |input.text| && StartsNumber(input.text[i])
    ensures ParseNumber(input, i) == Ok(v, n) <==> v.Number? && NumberSpelled(input, i, n, v.n)
  {
    hide NumberRun, ToInt, Converts, LongestRun;
    var m := i + NumberRun(input.text, i, 0);
    RunIsLongest(input.text, i, 0);
    var x := ToInt(input.strtod(input.text[i..m]).0);
    ConvertsOnce(input.strtod(input.text[i..m]).0, x);
    if v.Number? {
      ConvertsOnce(input.strtod(input.text[i..m]).0, v.n);
      forall k: nat | LongestRun(input.text, i, k)
        ensures k == m
      {
        OneLongest(input.text, i, k, m);
      }
    }
  }

  // ---- white space ----

  lemma {:induction false} SkipsGap(text: Str, i: nat, a: nat)
    requires Gap(text, i, a) && (a < |text| ==> text[a] > 32)
    ensures SkipSpace(text, i) == a
    decreases a - i
  {
    if i < a { SkipsGap(text, i + 1, a); }
  }

  lemma SkippedGap(text: Str, i: nat)
    requires i <= |text|
    ensures Gap(text, i, SkipSpace(text, i))
  {
  }

  // ---- the branches of `parse_value` ----

  lemma Words()
    ensures NULL_WORD == Ascii("null") && FALSE_WORD == Ascii("false") && TRUE_WORD == Ascii("true")
  {
  }

  lemma WordAt(text: Str, i: nat, n: nat, word: Str)
    requires i <= |text|
    ensures i <= n <= |text| && text[i..n] == word <==> Here(text, i, word) && n == i + |word|
  {
  }

  lemma BranchWord(input: Input, i: nat, n: nat, v: Json, depth: nat)
    requires i <= |input.text| && (v.Null? || v.False? || v.True?)
    ensures ParseValue(input, i, depth) == Ok(v, n) <==> Spells(input, i, n, v)
  {
    hide Ascii, Here, ParseString, ParseNumber, ParseArray, ParseObject;
    Words();
    WordAt(input.text, i, n, NULL_WORD);
    WordAt(input.text, i, n, FALSE_WORD);
    WordAt(input.text, i, n, TRUE_WORD);
    FirstChar(input.text, i, NULL_WORD);
    FirstChar(input.text, i, FALSE_WORD);
    FirstChar(input.text, i, TRUE_WORD);
    NumberIsNumber(input, i);
    ContainersAre(input, i, depth);
  }

  lemma NumberIsNumber(input: Input, i: nat)
    requires i <= |input.text|
    ensures ParseNumber(input, i).Ok? ==> ParseNumber(input, i).value.Number?
  {
  }

  lemma ContainersAre(input: Input, i: nat, depth: nat)
    requires i <= |input.text|
    ensures i < |input.text| && input.text[i] == LEFT_BRACKET && ParseArray(input, i, depth).Ok? ==> ParseArray(input, i, depth).value.Array?
    ensures i < |input.text| && input.text[i] == LEFT_BRACE && ParseObject(input, i, depth).Ok? ==> ParseObject(input, i, depth).value.Object?
  {
    hide ParseElements, ParseMembers;
  }

  /** No word begins with this byte. */
  predicate NoWord(c: byte) {
    c != 'n' as int && c != 'f' as int && c != 't' as int
  }

  lemma NotWords(text: Str, i: nat)
    requires NoWord(At(text, i))
    ensures !Here(text, i, NULL_WORD) && !Here(text, i, FALSE_WORD) && !Here(text, i, TRUE_WORD)
  {
    hide Here;
    FirstChar(text, i, NULL_WORD);
    FirstChar(text, i, FALSE_WORD);
    FirstChar(text, i, TRUE_WORD);
  }

  lemma Branches(input: Input, i: nat, depth: nat)
    requires i <= |input.text|
    ensures var c, r := At(input.text, i), ParseValue(input, i, depth);
            && (c == QUOTE ==> r == match ParseString(input, i) case Ok(s, n) => Ok(String(s), n) case Err(at) => Err(at))
            && (StartsNumber(c) ==> i < |input.text| && r == ParseNumber(input, i))
            && (c == LEFT_BRACKET ==> i < |input.text| && r == ParseArray(input, i, depth))
            && (c == LEFT_BRACE ==> i < |input.text| && r == ParseObject(input, i, depth))
            && (NoWord(c) && c != QUOTE && !StartsNumber(c) && c != LEFT_BRACKET && c != LEFT_BRACE ==> r.Err?)
            && (!NoWord(c) && r.Ok? ==> r.value.Null? || r.value.False? || r.value.True?)
  {
    hide Here, ParseString, ParseNumber, ParseArray, ParseObject;
    if NoWord(At(input.text, i)) { NotWords(input.text, i); }
  }

  // ---- soundness: what is taken is spelled ----

  /** The nesting stays within the limit. */
  predicate NestsWithin(v: Json, depth: nat) {
    depth + Nesting(v) <= NESTING_LIMIT
  }

  lemma {:induction false} Sound(input: Input, i: nat, n: nat, v: Json, depth: nat)
    requires i <= |input.text| && depth <= NESTING_LIMIT && ParseValue(input, i, depth) == Ok(v, n)
    ensures Spells(input, i, n, v) && NestsWithin(v, depth)
    decreases |input.text| - i, 2
  {
    hide ParseValue, ParseString, ParseNumber, ParseArray, ParseObject, ItemsSpelled, MembersSpelled, StringSpelled, NumberSpelled;
    var c := At(input.text, i);
    Branches(input, i, depth);
    if !NoWord(c) {
      BranchWord(input, i, n, v, depth);
    } else if c == QUOTE {
      StringExact(input, i, n, v.s);
    } else if StartsNumber(c) {
      NumberExact(input, i, n, v);
    } else if c == LEFT_BRACKET {
      SoundArray(input, i, n, v, depth);
    } else if c == LEFT_BRACE {
      SoundObject(input, i, n, v, depth);
    }
  }

  lemma {:induction false} SoundArray(input: Input, i: nat, n: nat, v: Json, depth: nat)
    requires i < |input.text| && input.text[i] == LEFT_BRACKET && depth <= NESTING_LIMIT && ParseArray(input, i, depth) == Ok(v, n)
    ensures Spells(input, i, n, v) && NestsWithin(v, depth)
    decreases |input.text| - i, 1
  {
    hide SkipSpace, ParseElements, ItemsSpelled;
    var j := SkipSpace(input.text, i + 1);
    SkippedGap(input.text, i + 1);
    if At(input.text, j) == RIGHT_BRACKET {
      EmptySpelled(input, i + 1, n);
    } else {
      SoundElements(input, j, n, v.items, depth + 1);
      WiderItems(input, i + 1, j, n, v.items);
    }
  }

  lemma EmptySpelled(input: Input, i: nat, n: nat)
    requires n > 0 && Gap(input.text, i, n - 1)
    ensures ByteAt(input.text, n - 1, ']') ==> ItemsSpelled(input, i, n, [], true)
    ensures ByteAt(input.text, n - 1, '}') ==> MembersSpelled(input, i, n, [], true)
  {
  }

  lemma WiderGap(text: Str, i: nat, j: nat, n: nat)
    requires Gap(text, i, j) && Gap(text, j, n)
    ensures Gap(text, i, n)
  {
  }

  lemma WiderValue(input: Input, i: nat, j: nat, n: nat, v: Json)
    requires Gap(input.text, i, j) && ValueSpelled(input, j, n, v)
    ensures ValueSpelled(input, i, n, v)
  {
    hide Spells;
    var a: nat, b: nat :| Gap(input.text, j, a) && Gap(input.text, b, n) && Spells(input, a, b, v);
    WiderGap(input.text, i, j, a);
  }

  lemma WiderItems(input: Input, i: nat, j: nat, n: nat, items: seq<Json>)
    requires items != [] && Gap(input.text, i, j) && ItemsSpelled(input, j, n, items, false)
    ensures ItemsSpelled(input, i, n, items, true)
  {
    hide ValueSpelled;
    var c: nat :| ValueSpelled(input, j, c, items[0]) &&
      if |items| == 1 then ByteAt(input.text, c, ']') && n == c + 1
      else ByteAt(input.text, c, ',') && ItemsSpelled(input, c + 1, n, items[1..], false);
    WiderValue(input, i, j, c, items[0]);
  }

  /** A value with white space around it, from the cursor on. */
  lemma {:induction false} SoundBetween(input: Input, i: nat, b: nat, v: Json, depth: nat)
    requires i <= |input.text| && depth <= NESTING_LIMIT && ParseValue(input, SkipSpace(input.text, i), depth) == Ok(v, b)
    ensures b <= |input.text| && ValueSpelled(input, i, SkipSpace(input.text, b), v) && NestsWithin(v, depth)
    decreases |input.text| - i, 3
  {
    hide ParseValue, SkipSpace, Spells;
    var a := SkipSpace(input.text, i);
    SkippedGap(input.text, i);
    Sound(input, a, b, v, depth);
    ParsedWithin(input, a, depth);
    SkippedGap(input.text, b);
  }

  lemma ParsedWithin(input: Input, i: nat, depth: nat)
    requires i <= |input.text|
    ensures ParseValue(input, i, depth).Ok? ==> i < ParseValue(input, i, depth).next <= |input.text|
  {
  }

  /** One turn of the loop over the elements. */
  lemma ElementsTurn(input: Input, i: nat, depth: nat)
    requires i <= |input.text|
    ensures var r, all := ParseValue(input, SkipSpace(input.text, i), depth), ParseElements(input, i, depth);
            && (r.Err? ==> all.Err?)
            && (r.Ok? ==>
                  r.next <= |input.text| &&
                  var m := SkipSpace(input.text, r.next);
                  if At(input.text, m) == COMMA then
                    m + 1 <= |input.text| && all == More(r.value, ParseElements(input, m + 1, depth))
                  else if At(input.text, m) == RIGHT_BRACKET then all == Ok([r.value], m + 1)
                  else all.Err?)
  {
    hide ParseValue, SkipSpace;
  }

  function More(v: Json, rest: Parsed<seq<Json>>): Parsed<seq<Json>> {
    match rest
    case Ok(vs, next) => Ok([v] + vs, next)
    case Err(at) => Err(at)
  }

  lemma {:induction false} SoundElements(input: Input, i: nat, n: nat, items: seq<Json>, depth: nat)
    requires i <= |input.text| && depth <= NESTING_LIMIT && ParseElements(input, i, depth) == Ok(items, n)
    ensures items != [] && ItemsSpelled(input, i, n, items, false) && depth + NestingItems(items) <= NESTING_LIMIT
    decreases |input.text| - i, 4
  {
    hide ParseValue, ParseElements, SkipSpace, ValueSpelled, Nesting;
    ElementsTurn(input, i, depth);
    ParsedWithin(input, SkipSpace(input.text, i), depth);
    var r := ParseValue(input, SkipSpace(input.text, i), depth);
    var m := SkipSpace(input.text, r.next);
    SoundBetween(input, i, r.next, r.value, depth);
    if At(input.text, m) == COMMA {
      var rest := ParseElements(input, m + 1, depth);
      SoundElements(input, m + 1, n, rest.value, depth);
      assert items[1..] == rest.value;
    } else {
      assert items == [r.value] && ValueSpelled(input, i, m, items[0]) && ByteAt(input.text, m, ']');
    }
  }

  lemma {:induction false} SoundObject(input: Input, i: nat, n: nat, v: Json, depth: nat)
    requires i < |input.text| && input.text[i] == LEFT_BRACE && depth <= NESTING_LIMIT && ParseObject(input, i, depth) == Ok(v, n)
    ensures Spells(input, i, n, v) && NestsWithin(v, depth)
    decreases |input.text| - i, 1
  {
    hide SkipSpace, ParseMembers, MembersSpelled;
    var j := SkipSpace(input.text, i + 1);
    SkippedGap(input.text, i + 1);
    if At(input.text, j) == RIGHT_BRACE {
      EmptySpelled(input, i + 1, n);
    } else {
      SoundMembers(input, j, n, v.members, depth + 1);
      WiderMembers(input, i + 1, j, n, v.members);
    }
  }

  lemma WiderMembers(input: Input, i: nat, j: nat, n: nat, members: seq<Member<Json>>)
    requires members != [] && Gap(input.text, i, j) && MembersSpelled(input, j, n, members, false)
    ensures MembersSpelled(input, i, n, members, true)
  {
    hide MemberSpelled;
    var c: nat :| MemberSpelled(input, j, c, members[0]) &&
      if |members| == 1 then ByteAt(input.text, c, '}') && n == c + 1
      else ByteAt(input.text, c, ',') && MembersSpelled(input, c + 1, n, members[1..], false);
    WiderMember(input, i, j, c, members[0]);
  }

  lemma WiderMember(input: Input, i: nat, j: nat, n: nat, m: Member<Json>)
    requires Gap(input.text, i, j) && MemberSpelled(input, j, n, m)
    ensures MemberSpelled(input, i, n, m)
  {
    hide ValueSpelled, StringSpelled;
    var c: nat :| NameSpelled(input.text, j, c, m.key) && ValueSpelled(input, c + 1, n, m.value);
    var a: nat, b: nat :| Gap(input.text, j, a) && Gap(input.text, b, c) && StringSpelled(input.text, a, b, m.key);
    WiderGap(input.text, i, j, a);
    assert NameSpelled(input.text, i, c, m.key);
  }

  lemma {:induction false} SoundMember(input: Input, i: nat, n: nat, m: Member<Json>, depth: nat)
    requires i <= |input.text| && depth <= NESTING_LIMIT && ParseMember(input, i, depth) == Ok(m, n)
    ensures MemberSpelled(input, i, n, m) && NestsWithin(m.value, depth)
    decreases |input.text| - i, 4
  {
    hide ParseValue, ParseString, SkipSpace, ValueSpelled, StringSpelled, Nesting;
    var text := input.text;
    var a := SkipSpace(text, i);
    var key := ParseString(input, a);
    var b := key.next;
    var c := SkipSpace(text, b);
    SkippedGap(text, i);
    StringExact(input, a, b, key.value);
    SkippedGap(text, b);
    assert NameSpelled(text, i, c, m.key);
    var v := ParseValue(input, SkipSpace(text, c + 1), depth);
    SoundBetween(input, c + 1, v.next, v.value, depth);
  }

  lemma {:induction false} SoundMembers(input: Input, i: nat, n: nat, members: seq<Member<Json>>, depth: nat)
    requires i <= |input.text| && depth <= NESTING_LIMIT && ParseMembers(input, i, depth) == Ok(members, n)
    ensures members != [] && MembersSpelled(input, i, n, members, false) && depth + NestingMembers(members) <= NESTING_LIMIT
    decreases |input.text| - i, 5
  {
    hide ParseMember, SkipSpace, MemberSpelled, Nesting;
    var r := ParseMember(input, i, depth);
    SoundMember(input, i, r.next, r.value, depth);
    if At(input.text, r.next) == COMMA {
      var rest := ParseMembers(input, r.next + 1, depth);
      SoundMembers(input, r.next + 1, n, rest.value, depth);
      assert members[1..] == rest.value;
    } else {
      assert members == [r.value] && MemberSpelled(input, i, r.next, members[0]) && ByteAt(input.text, r.next, '}');
    }
  }

  // ---- completeness: what is spelled is taken ----

  /** A value does not begin with white space, nor with what closes a container. */
  lemma SpelledStart(input: Input, i: nat, n: nat, v: Json)
    requires Spells(input, i, n, v)
    ensures i < n && input.text[i] > 32 && input.text[i] != RIGHT_BRACKET && input.text[i] != RIGHT_BRACE
  {
    hide ItemsSpelled, MembersSpelled, StringSpelled, NumberSpelled;
    match v
    case Null => assert Ascii("null")[0] == 110;
    case False => assert Ascii("false")[0] == 102;
    case True => assert Ascii("true")[0] == 116;
    case Number(x) => NumberStart(input, i, n, x);
    case String(s) => StringStart(input.text, i, n, s);
    case Array(items) => ItemsEnd(input, i + 1, n, items, true);
    case Object(members) => MembersEnd(input, i + 1, n, members, true);
  }

  lemma NumberStart(input: Input, i: nat, n: nat, x: int)
    requires NumberSpelled(input, i, n, x)
    ensures i < n <= |input.text| && StartsNumber(input.text[i])
  {
  }

  lemma StringStart(text: Str, i: nat, n: nat, s: Str)
    requires StringSpelled(text, i, n, s)
    ensures i < n <= |text| && text[i] == QUOTE
  {
  }

  lemma {:induction false} ItemsEnd(input: Input, i: nat, n: nat, items: seq<Json>, first: bool)
    requires ItemsSpelled(input, i, n, items, first)
    ensures i < n <= |input.text|
    decreases items
  {
    hide Spells;
    if items != [] {
      var c: nat :| ValueSpelled(input, i, c, items[0]) &&
        if |items| == 1 then ByteAt(input.text, c, ']') && n == c + 1
        else ByteAt(input.text, c, ',') && ItemsSpelled(input, c + 1, n, items[1..], false);
      ValueEnd(input, i, c, items[0]);
      if |items| > 1 { ItemsEnd(input, c + 1, n, items[1..], false); }
    }
  }

  lemma ValueEnd(input: Input, i: nat, n: nat, v: Json)
    requires ValueSpelled(input, i, n, v)
    ensures i <= n <= |input.text|
  {
    hide Spells;
    var a: nat, b: nat :| Gap(input.text, i, a) && Gap(input.text, b, n) && Spells(input, a, b, v);
    SpelledIn(input, a, b, v);
  }

  lemma SpelledIn(input: Input, i: nat, n: nat, v: Json)
    requires Spells(input, i, n, v)
    ensures i <= n <= |input.text|
  {
  }

  lemma NameEnd(text: Str, i: nat, n: nat, key: Str)
    requires NameSpelled(text, i, n, key)
    ensures i <= n < |text|
  {
    hide StringSpelled;
    var a: nat, b: nat :| Gap(text, i, a) && Gap(text, b, n) && StringSpelled(text, a, b, key);
    StringStart(text, a, b, key);
  }

  lemma {:induction false} MembersEnd(input: Input, i: nat, n: nat, members: seq<Member<Json>>, first: bool)
    requires MembersSpelled(input, i, n, members, first)
    ensures i < n <= |input.text|
    decreases members
  {
    hide NameSpelled, ValueSpelled;
    if members != [] {
      var c: nat :| MemberSpelled(input, i, c, members[0]) &&
        if |members| == 1 then ByteAt(input.text, c, '}') && n == c + 1
        else ByteAt(input.text, c, ',') && MembersSpelled(input, c + 1, n, members[1..], false);
      var b: nat :| NameSpelled(input.text, i, b, members[0].key) && ValueSpelled(input, b + 1, c, members[0].value);
      NameEnd(input.text, i, b, members[0].key);
      ValueEnd(input, b + 1, c, members[0].value);
      if |members| > 1 { MembersEnd(input, c + 1, n, members[1..], false); }
    }
  }

  lemma {:induction false} Taken(input: Input, i: nat, n: nat, v: Json, depth: nat)
    requires i <= |input.text| && Spells(input, i, n, v) && NestsWithin(v, depth)
    ensures ParseValue(input, i, depth) == Ok(v, n)
    decreases v, 1
  {
    hide ParseValue, ParseString, ParseNumber, ParseArray, ParseObject, ItemsSpelled, MembersSpelled, StringSpelled, NumberSpelled;
    Branches(input, i, depth);
    match v
    case Number(x) =>
      NumberStart(input, i, n, x);
      NumberExact(input, i, n, v);
    case String(s) =>
      StringStart(input.text, i, n, s);
      StringExact(input, i, n, s);
    case Array(items) => TakenArray(input, i, n, items, depth);
    case Object(members) => TakenObject(input, i, n, members, depth);
    case _ => BranchWord(input, i, n, v, depth);
  }

  /** The value after some white space, and the white space up to a byte that is none. */
  lemma {:induction false} TakenBetween(input: Input, i: nat, c: nat, v: Json, depth: nat) returns (b: nat)
    requires ValueSpelled(input, i, c, v) && NestsWithin(v, depth) && c < |input.text| && input.text[c] > 32
    ensures i <= |input.text| && ParseValue(input, SkipSpace(input.text, i), depth) == Ok(v, b)
    ensures b <= |input.text| && SkipSpace(input.text, b) == c
    decreases v, 2
  {
    hide ParseValue, Spells;
    ValueEnd(input, i, c, v);
    var a: nat;
    a, b :| Gap(input.text, i, a) && Gap(input.text, b, c) && Spells(input, a, b, v);
    SpelledStart(input, a, b, v);
    SkipsGap(input.text, i, a);
    SkipsGap(input.text, b, c);
    Taken(input, a, b, v, depth);
  }

  lemma {:induction false} TakenArray(input: Input, i: nat, n: nat, items: seq<Json>, depth: nat)
    requires i <= |input.text| && Spells(input, i, n, Array(items)) && NestsWithin(Array(items), depth)
    ensures i < |input.text| && input.text[i] == LEFT_BRACKET && ParseArray(input, i, depth) == Ok(Array(items), n)
    decreases items, 1
  {
    hide ParseElements, SkipSpace;
    if items == [] {
      SkipsGap(input.text, i + 1, n - 1);
    } else {
      ItemsEnd(input, i + 1, n, items, true);
      ItemsStart(input, i + 1, n, items, true);
      TakenItems(input, i + 1, n, items, true, depth + 1);
      ElementsSkip(input, i + 1, depth + 1);
    }
  }

  lemma SkipTwice(text: Str, i: nat)
    requires i <= |text|
    ensures SkipSpace(text, SkipSpace(text, i)) == SkipSpace(text, i)
  {
    SkipsGap(text, SkipSpace(text, i), SkipSpace(text, i));
  }

  lemma ElementsSkip(input: Input, i: nat, depth: nat)
    requires i <= |input.text|
    ensures ParseElements(input, SkipSpace(input.text, i), depth) == ParseElements(input, i, depth)
  {
    hide ParseValue, SkipSpace;
    SkipTwice(input.text, i);
  }

  lemma MemberSkips(input: Input, i: nat, depth: nat)
    requires i <= |input.text|
    ensures ParseMember(input, SkipSpace(input.text, i), depth) == ParseMember(input, i, depth)
  {
    hide ParseValue, ParseString, SkipSpace;
    SkipTwice(input.text, i);
  }

  lemma MembersSkip(input: Input, i: nat, depth: nat)
    requires i <= |input.text|
    ensures ParseMembers(input, SkipSpace(input.text, i), depth) == ParseMembers(input, i, depth)
  {
    hide ParseMember, SkipSpace;
    MemberSkips(input, i, depth);
  }

  /** The first element begins with something else than the closing bracket. */
  lemma ItemsStart(input: Input, i: nat, n: nat, items: seq<Json>, first: bool)
    requires items != [] && ItemsSpelled(input, i, n, items, first) && i <= |input.text|
    ensures At(input.text, SkipSpace(input.text, i)) != RIGHT_BRACKET
  {
    hide Spells;
    var c: nat :| ValueSpelled(input, i, c, items[0]) &&
      if |items| == 1 then ByteAt(input.text, c, ']') && n == c + 1
      else ByteAt(input.text, c, ',') && ItemsSpelled(input, c + 1, n, items[1..], false);
    var a: nat, b: nat :| Gap(input.text, i, a) && Gap(input.text, b, c) && Spells(input, a, b, items[0]);
    SpelledStart(input, a, b, items[0]);
    SpelledIn(input, a, b, items[0]);
    SkipsGap(input.text, i, a);
  }

  lemma {:induction false} TakenItems(input: Input, i: nat, n: nat, items: seq<Json>, first: bool, depth: nat)
    requires items != [] && i <= |input.text| && ItemsSpelled(input, i, n, items, first) && depth + NestingItems(items) <= NESTING_LIMIT
    ensures ParseElements(input, i, depth) == Ok(items, n)
    decreases items, 0
  {
    hide ParseValue, ParseElements, SkipSpace, ValueSpelled, Nesting;
    ElementsTurn(input, i, depth);
    var c: nat :| ValueSpelled(input, i, c, items[0]) &&
      if |items| == 1 then ByteAt(input.text, c, ']') && n == c + 1
      else ByteAt(input.text, c, ',') && ItemsSpelled(input, c + 1, n, items[1..], false);
    var b := TakenBetween(input, i, c, items[0], depth);
    if |items| > 1 {
      TakenItems(input, c + 1, n, items[1..], false, depth);
      assert [items[0]] + items[1..] == items;
    } else {
      assert items == [items[0]];
    }
  }

  lemma {:induction false} TakenObject(input: Input, i: nat, n: nat, members: seq<Member<Json>>, depth: nat)
    requires i <= |input.text| && Spells(input, i, n, Object(members)) && NestsWithin(Object(members), depth)
    ensures i < |input.text| && input.text[i] == LEFT_BRACE && ParseObject(input, i, depth) == Ok(Object(members), n)
    decreases members, 1
  {
    hide ParseMembers, SkipSpace;
    if members == [] {
      SkipsGap(input.text, i + 1, n - 1);
    } else {
      MembersEnd(input, i + 1, n, members, true);
      MembersStart(input, i + 1, n, members, true);
      TakenMembers(input, i + 1, n, members, true, depth + 1);
      MembersSkip(input, i + 1, depth + 1);
    }
  }

  lemma MembersStart(input: Input, i: nat, n: nat, members: seq<Member<Json>>, first: bool)
    requires members != [] && MembersSpelled(input, i, n, members, first) && i <= |input.text|
    ensures At(input.text, SkipSpace(input.text, i)) != RIGHT_BRACE
  {
    hide ValueSpelled, StringSpelled;
    var c: nat :| MemberSpelled(input, i, c, members[0]) &&
      if |members| == 1 then ByteAt(input.text, c, '}') && n == c + 1
      else ByteAt(input.text, c, ',') && MembersSpelled(input, c + 1, n, members[1..], false);
    var m: nat :| NameSpelled(input.text, i, m, members[0].key) && ValueSpelled(input, m + 1, c, members[0].value);
    var a: nat, b: nat :| Gap(input.text, i, a) && Gap(input.text, b, m) && StringSpelled(input.text, a, b, members[0].key);
    StringStart(input.text, a, b, members[0].key);
    SkipsGap(input.text, i, a);
  }

  lemma TakenName(input: Input, i: nat, c: nat, key: Str) returns (b: nat)
    requires NameSpelled(input.text, i, c, key)
    ensures i <= |input.text| && ParseString(input, SkipSpace(input.text, i)) == Ok(key, b)
    ensures b <= |input.text| && SkipSpace(input.text, b) == c < |input.text| && input.text[c] == COLON
  {
    hide ParseString, StringSpelled;
    NameEnd(input.text, i, c, key);
    var a: nat;
    a, b :| Gap(input.text, i, a) && Gap(input.text, b, c) && StringSpelled(input.text, a, b, key);
    StringStart(input.text, a, b, key);
    SkipsGap(input.text, i, a);
    SkipsGap(input.text, b, c);
    StringExact(input, a, b, key);
  }

  lemma {:induction false} TakenMember(input: Input, i: nat, n: nat, m: Member<Json>, depth: nat)
    requires i <= |input.text| && MemberSpelled(input, i, n, m) && NestsWithin(m.value, depth) && n < |input.text| && input.text[n] > 32
    ensures ParseMember(input, i, depth) == Ok(m, n)
    decreases m, 3
  {
    hide ParseValue, ParseString, SkipSpace, ValueSpelled, StringSpelled, Nesting, NameSpelled;
    var c: nat :| NameSpelled(input.text, i, c, m.key) && ValueSpelled(input, c + 1, n, m.value);
    var b := TakenName(input, i, c, m.key);
    var p := TakenBetween(input, c + 1, n, m.value, depth);
  }

  lemma {:induction false} TakenMembers(input: Input, i: nat, n: nat, members: seq<Member<Json>>, first: bool, depth: nat)
    requires members != [] && i <= |input.text| && MembersSpelled(input, i, n, members, first) && depth + NestingMembers(members) <= NESTING_LIMIT
    ensures ParseMembers(input, i, depth) == Ok(members, n)
    decreases members, 0
  {
    hide ParseMember, SkipSpace, MemberSpelled, Nesting;
    var c: nat :| MemberSpelled(input, i, c, members[0]) &&
      if |members| == 1 then ByteAt(input.text, c, '}') && n == c + 1
      else ByteAt(input.text, c, ',') && MembersSpelled(input, c + 1, n, members[1..], false);
    TakenMember(input, i, c, members[0], depth);
    if |members| > 1 {
      TakenMembers(input, c + 1, n, members[1..], false, depth);
      assert [members[0]] + members[1..] == members;
    } else {
      assert members == [members[0]];
    }
  }

  // ---- the exact theorems ----

  /** `parse_value` takes a value from the cursor on exactly if it is spelled there, and containers nest within the limit. */
  lemma ParseExact(input: Input, i: nat, n: nat, v: Json, depth: nat)
    requires i <= |input.text| && depth <= NESTING_LIMIT
    ensures ParseValue(input, i, depth) == Ok(v, n) <==> Spells(input, i, n, v) && depth + Nesting(v) <= NESTING_LIMIT
  {
    hide ParseValue, Spells;
    if ParseValue(input, i, depth) == Ok(v, n) { Sound(input, i, n, v, depth); }
    if Spells(input, i, n, v) && depth + Nesting(v) <= NESTING_LIMIT { Taken(input, i, n, v, depth); }
  }

  /** The place after a byte order mark, which is one only if more text follows. */
  predicate MarkEnds(text: Str, m: nat) {
    m == if |text| >= 4 && text[0] == 0xEF && text[1] == 0xBB && text[2] == 0xBF then 3 else 0
  }

  /** A whole text: a mark, a value between white space, and the end; or, if the end is not asked for, anything after the value. */
  ghost predicate TextSpelled(input: Input, whole: bool, n: nat, v: Json) {
    exists m: nat, a: nat, b: nat ::
      && MarkEnds(input.text, m) && Gap(input.text, m, a) && Spells(input, a, b, v)
      && if whole then n == |input.text| && Gap(input.text, b, n) else n == b
  }

  /** `cJSON_ParseWithOpts` takes exactly such texts, with containers nested at most 1000 deep. */
  lemma TextExact(input: Input, whole: bool, n: nat, v: Json)
    ensures ParseWithOpts(input, whole) == Ok(v, n) <==> TextSpelled(input, whole, n, v) && Nesting(v) <= 1000
  {
    hide ParseValue, Spells, SkipSpace;
    if ParseWithOpts(input, whole) == Ok(v, n) { TextSound(input, whole, n, v); }
    if TextSpelled(input, whole, n, v) && Nesting(v) <= 1000 { TextTaken(input, whole, n, v); }
  }

  lemma SameMark(text: Str)
    ensures MarkEnds(text, SkipMark(text))
  {
    if |text| >= 4 {
      assert text[..3] == BYTE_ORDER_MARK <==> text[0] == 0xEF && text[1] == 0xBB && text[2] == 0xBF;
    }
  }

  lemma TextSound(input: Input, whole: bool, n: nat, v: Json)
    requires ParseWithOpts(input, whole) == Ok(v, n)
    ensures TextSpelled(input, whole, n, v) && Nesting(v) <= 1000
  {
    hide ParseValue, Spells, SkipSpace, SkipMark;
    var m := SkipMark(input.text);
    var a := SkipSpace(input.text, m);
    var b := ParseValue(input, a, 0).next;
    SameMark(input.text);
    SkippedGap(input.text, m);
    ParsedWithin(input, a, 0);
    SkippedGap(input.text, b);
    ParseExact(input, a, b, v, 0);
  }

  lemma TextTaken(input: Input, whole: bool, n: nat, v: Json)
    requires TextSpelled(input, whole, n, v) && Nesting(v) <= 1000
    ensures ParseWithOpts(input, whole) == Ok(v, n)
  {
    hide ParseValue, Spells, SkipSpace, SkipMark;
    var m: nat, a: nat, b: nat :|
      && MarkEnds(input.text, m) && Gap(input.text, m, a) && Spells(input, a, b, v)
      && if whole then n == |input.text| && Gap(input.text, b, n) else n == b;
    SameMark(input.text);
    SpelledStart(input, a, b, v);
    SpelledIn(input, a, b, v);
    SkipsGap(input.text, m, a);
    ParseExact(input, a, b, v, 0);
    if whole { SkipsGap(input.text, b, n); }
  }
}

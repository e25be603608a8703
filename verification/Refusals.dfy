/** Where a text is refused: the place that is reported is where what has been spelled so far cannot go on. */
module Refusals {
  import opened Bytes
  import opened Json
  import opened Pointers
  import opened Escapes
  import opened Spellings
  import opened Parsing
  import opened Layouts
  import opened Grammar
  import opened Acceptance

  // ---- places where a text is stuck ----

  /** No quote from `i` on ends a literal. */
  predicate Unclosed(text: Str, i: nat) {
    forall end {:trigger text[end]} | i <= end < |text| && text[end] == '"' as int :: !Unquoted(text[i..end])
  }

  /** A backslash at `at` that begins no stroke before `end`. */
  ghost predicate NoStroke(text: Str, at: nat, end: nat) {
    at < end && ByteAt(text, at, '\\') &&
    forall s: Stroke {:trigger IsStroke(s)} | IsStroke(s) && Here(text, at, StrokeText(s)) :: !s.Escape? && at + |StrokeText(s)| > end
  }

  /** A literal of which strokes have been read up to `at`. */
  ghost predicate BadStroke(text: Str, i: nat, at: nat, end: nat) {
    && i <= at < end < |text| && text[end] == '"' as int && Unquoted(text[i..end]) && NoStroke(text, at, end)
    && exists strokes :: AllStrokes(strokes) && text[i..at] == StrokesText(strokes)
  }

  ghost predicate BadAt(text: Str, i: nat, at: nat) {
    exists end: nat :: BadStroke(text, i, at, end)
  }

  /** No literal, or one that does not end, is reported behind its first byte; a bad escape where it stands. */
  ghost predicate StringStuck(text: Str, i: nat, at: nat) {
    || (!ByteAt(text, i, '"') && at == i + 1)
    || (ByteAt(text, i, '"') && Unclosed(text, i + 1) && at == i + 1)
    || (ByteAt(text, i, '"') && BadAt(text, i + 1, at))
  }

  predicate IsStart(text: Str, i: nat) {
    i < |text| &&
    (text[i] in Ascii("\"-[{0123456789") || Here(text, i, Ascii("null")) || Here(text, i, Ascii("false")) || Here(text, i, Ascii("true")))
  }

  /** No more white space from `a` on. */
  predicate GapEnds(text: Str, i: nat, a: nat) {
    Gap(text, i, a) && (a < |text| ==> text[a] > 32)
  }

  /** A number of which `strtod` takes nothing. */
  ghost predicate NumberStuck(input: Input, i: nat) {
    i < |input.text| && input.text[i] in Ascii("-0123456789") &&
    exists m: nat :: LongestRun(input.text, i, m) && input.strtod(input.text[i..m]).1 == 0
  }

  /**
   * No value can be read from `i` on, and this is reported at `at`: nothing begins there; a literal or a number
   * does not go on; the brackets nest too deep; or a container is stuck.
   */
  ghost predicate Stuck(input: Input, i: nat, at: nat, depth: nat)
    requires i <= |input.text|
    decreases |input.text| - i, 0
  {
    || (!IsStart(input.text, i) && at == i)
    || (ByteAt(input.text, i, '"') && StringStuck(input.text, i, at))
    || (NumberStuck(input, i) && at == i)
    || ((ByteAt(input.text, i, '[') || ByteAt(input.text, i, '{')) && depth >= 1000 && at == i)
    || (ByteAt(input.text, i, '[') && depth < 1000 && ItemsStuck(input, i + 1, at, depth + 1))
    || (ByteAt(input.text, i, '{') && depth < 1000 && MembersStuck(input, i + 1, at, depth + 1))
  }

  /** An element is stuck, or what follows one is neither a comma nor the end, or the elements after a comma are stuck. */
  ghost predicate ItemsStuck(input: Input, i: nat, at: nat, depth: nat)
    requires i <= |input.text|
    decreases |input.text| - i, 1
  {
    || (exists a: nat :: GapEnds(input.text, i, a) && Stuck(input, a, at, depth))
    || (exists c: nat, v: Json ::
          && ValueSpelled(input, i, c, v) && depth + Nesting(v) <= 1000 && GapEnds(input.text, c, c) && i <= c
          && if ByteAt(input.text, c, ',') then ItemsStuck(input, c + 1, at, depth) else !ByteAt(input.text, c, ']') && at == c)
  }

  /** The same for members: a name may be stuck, the colon missing, or the value stuck. */
  ghost predicate MemberStuck(input: Input, i: nat, at: nat, depth: nat)
    requires i <= |input.text|
    decreases |input.text| - i, 1
  {
    || (exists a: nat :: GapEnds(input.text, i, a) && StringStuck(input.text, a, at))
    || (exists a: nat, b: nat, key: Str ::
          GapEnds(input.text, i, a) && StringSpelled(input.text, a, b, key) && GapEnds(input.text, b, at) && !ByteAt(input.text, at, ':'))
    || (exists c: nat, key: Str, a: nat ::
          && i <= c && NameSpelled(input.text, i, c, key)
          && GapEnds(input.text, c + 1, a) && Stuck(input, a, at, depth))
  }

  ghost predicate MembersStuck(input: Input, i: nat, at: nat, depth: nat)
    requires i <= |input.text|
    decreases |input.text| - i, 2
  {
    || MemberStuck(input, i, at, depth)
    || (exists c: nat, m: Member<Json> ::
          && MemberSpelled(input, i, c, m) && depth + Nesting(m.value) <= 1000 && GapEnds(input.text, c, c) && i <= c
          && if ByteAt(input.text, c, ',') then MembersStuck(input, c + 1, at, depth) else !ByteAt(input.text, c, '}') && at == c)
  }

  // ---- strings ----

  lemma UnclosedFound(text: Str, i: nat)
    requires i <= |text| && ScanString(text, i) == None
    ensures Unclosed(text, i)
  {
    hide ScanString, Unquoted;
    forall end {:trigger text[end]} | i <= end < |text| && text[end] == '"' as int
      ensures !Unquoted(text[i..end])
    {
      ScanExact(text, i, end);
    }
  }

  lemma {:induction false} StrokesUpTo(text: Str, i: nat, end: nat) returns (strokes: seq<Stroke>)
    requires i <= end < |text| && text[end] == QUOTE && Unescape(text, i, end).BadEscape?
    ensures var at := Unescape(text, i, end).at;
            i <= at < end && AllStrokes(strokes) && text[i..at] == StrokesText(strokes) && Unescape(text, at, end) == BadEscape(at) && text[at] == BACKSLASH
    decreases end - i
  {
    hide Here, IsStroke, StrokeText, StrokeBytes, Unescape;
    UnescapeStopsInside(text, i, end);
    if Unescape(text, i, end).at == i {
      BadHere(text, i, end);
      strokes := [];
      assert text[i..i] == [];
    } else {
      var s := StrokeBefore(text, i, end);
      var j := i + |StrokeText(s)|;
      StrokeRead(text, i, end, s);
      StrokeLength(s);
      var rest := StrokesUpTo(text, j, end);
      strokes := [s] + rest;
      StrokesJoined(text, i, Unescape(text, i, end).at, s, rest);
    }
  }

  lemma BadHere(text: Str, i: nat, end: nat)
    requires i < end < |text| && Unescape(text, i, end) == BadEscape(i)
    ensures text[i] == BACKSLASH
  {
    hide ReadUtf16, EncodeUtf8, SimpleEscape;
    if text[i] != BACKSLASH && Unescape(text, i + 1, end).BadEscape? { UnescapeStopsInside(text, i + 1, end); }
  }

  lemma StrokesJoined(text: Str, i: nat, at: nat, s: Stroke, rest: seq<Stroke>)
    requires IsStroke(s) && AllStrokes(rest) && Here(text, i, StrokeText(s)) && i + |StrokeText(s)| <= at <= |text|
    requires text[i + |StrokeText(s)|..at] == StrokesText(rest)
    ensures AllStrokes([s] + rest) && text[i..at] == StrokesText([s] + rest)
  {
    hide IsStroke, StrokeText;
    assert ([s] + rest)[1..] == rest;
    assert forall k | 0 <= k < |[s] + rest| :: IsStroke(([s] + rest)[k]);
    var j := i + |StrokeText(s)|;
    assert text[i..at] == text[i..j] + text[j..at];
  }

  /** The stroke before a bad escape further on. */
  lemma StrokeBefore(text: Str, i: nat, end: nat) returns (s: Stroke)
    requires i < end < |text| && text[end] == QUOTE && Unescape(text, i, end).BadEscape? && Unescape(text, i, end).at != i
    ensures IsStroke(s) && Here(text, i, StrokeText(s)) && i + |StrokeText(s)| <= end
  {
    hide EncodeUtf8, Utf8, ReadUtf16, SimpleEscape;
    UnescapeNext(text, i, end);
    if text[i] != BACKSLASH {
      s := Raw(text[i]);
    } else if text[i + 1] == LETTER_U {
      s := UnitFound(text, i, end);
    } else {
      s := Escape(text[i + 1]);
      SameEscapes(text[i + 1]);
    }
  }

  lemma NoStrokeFits(text: Str, at: nat, end: nat)
    requires at < end < |text| && text[at] == BACKSLASH && Unescape(text, at, end) == BadEscape(at)
    ensures NoStroke(text, at, end)
  {
    hide Here, IsStroke, StrokeText, StrokeBytes, Unescape;
    forall s: Stroke {:trigger IsStroke(s)} | IsStroke(s) && Here(text, at, StrokeText(s))
      ensures !s.Escape? && at + |StrokeText(s)| > end
    {
      if s.Escape? || at + |StrokeText(s)| <= end {
        StrokeRead(text, at, end, s);
        StrokeLength(s);
        LaterBad(text, at + |StrokeText(s)|, end);
        assert false;
      }
    }
  }

  lemma LaterBad(text: Str, i: nat, end: nat)
    requires end < |text| && Unescape(text, i, end).BadEscape?
    ensures Unescape(text, i, end).at >= i
  {
    if i < end { UnescapeStopsInside(text, i, end); }
  }

  lemma StringRefused(input: Input, i: nat, at: nat)
    requires i <= |input.text| && ParseString(input, i) == Err(at)
    ensures StringStuck(input.text, i, at)
  {
    hide Unescape, ScanString, Unquoted, StrokesText, NoStroke, AllStrokes;
    var text := input.text;
    if At(text, i) == QUOTE {
      if ScanString(text, i + 1) == None {
        UnclosedFound(text, i + 1);
      } else {
        var end := ScanString(text, i + 1).value;
        ScanExact(text, i + 1, end);
        var strokes := StrokesUpTo(text, i + 1, end);
        NoStrokeFits(text, at, end);
        assert BadStroke(text, i + 1, at, end);
      }
    }
  }

  // ---- what is refused is stuck ----

  lemma StartBytes(c: byte)
    ensures c in Ascii("\"-[{0123456789") <==> c == QUOTE || StartsNumber(c) || c == LEFT_BRACKET || c == LEFT_BRACE
    ensures c in Ascii("-0123456789") <==> StartsNumber(c)
  {
    assert Ascii("-0123456789") == [45, 48, 49, 50, 51, 52, 53, 54, 55, 56, 57];
    assert Ascii("\"-[{0123456789") == [34, 45, 91, 123, 48, 49, 50, 51, 52, 53, 54, 55, 56, 57];
  }

  lemma NumberRefused(input: Input, i: nat, at: nat)
    requires i < |input.text| && StartsNumber(input.text[i]) && ParseNumber(input, i) == Err(at)
    ensures NumberStuck(input, i) && at == i
  {
    hide NumberRun, LongestRun, ToInt;
    RunIsLongest(input.text, i, 0);
    StartBytes(input.text[i]);
  }

  lemma WordsTaken(input: Input, i: nat, depth: nat)
    requires i <= |input.text| && ParseValue(input, i, depth).Err?
    ensures !Here(input.text, i, Ascii("null")) && !Here(input.text, i, Ascii("false")) && !Here(input.text, i, Ascii("true"))
  {
    hide Here, ParseString, ParseNumber, ParseArray, ParseObject, Ascii;
    Words();
  }

  lemma {:induction false} Refused(input: Input, i: nat, at: nat, depth: nat)
    requires i <= |input.text| && depth <= NESTING_LIMIT && ParseValue(input, i, depth) == Err(at)
    ensures Stuck(input, i, at, depth)
    decreases |input.text| - i, 2
  {
    hide ParseValue, ParseString, ParseNumber, ParseArray, ParseObject, ItemsStuck, MembersStuck, StringStuck, NumberStuck, Here, Ascii;
    var c := At(input.text, i);
    WordsTaken(input, i, depth);
    if i < |input.text| { StartBytes(c); }
    if c == QUOTE || StartsNumber(c) || c == LEFT_BRACKET || c == LEFT_BRACE {
      Branches(input, i, depth);
      if c == QUOTE {
        StringRefused(input, i, at);
      } else if c == LEFT_BRACKET {
        ArrayRefused(input, i, at, depth);
      } else if c == LEFT_BRACE {
        ObjectRefused(input, i, at, depth);
      } else {
        NumberRefused(input, i, at);
      }
    } else {
      NothingThere(input, i, at, depth);
    }
  }

  lemma NothingThere(input: Input, i: nat, at: nat, depth: nat)
    requires i <= |input.text| && ParseValue(input, i, depth) == Err(at)
    requires var c := At(input.text, i); c != QUOTE && !StartsNumber(c) && c != LEFT_BRACKET && c != LEFT_BRACE
    ensures at == i
  {
    hide Here, ParseString, ParseNumber, ParseArray, ParseObject;
  }

  lemma {:induction false} ArrayRefused(input: Input, i: nat, at: nat, depth: nat)
    requires i < |input.text| && input.text[i] == LEFT_BRACKET && depth <= NESTING_LIMIT && ParseArray(input, i, depth) == Err(at)
    ensures if depth >= 1000 then at == i else ItemsStuck(input, i + 1, at, depth + 1)
    decreases |input.text| - i, 1
  {
    hide ParseElements, SkipSpace, ItemsStuck;
    if depth < NESTING_LIMIT {
      ElementsSkip(input, i + 1, depth + 1);
      ElementsRefused(input, i + 1, at, depth + 1);
    }
  }

  lemma SkippedTo(text: Str, i: nat)
    requires i <= |text|
    ensures GapEnds(text, i, SkipSpace(text, i)) && GapEnds(text, SkipSpace(text, i), SkipSpace(text, i))
  {
    SkippedGap(text, i);
  }

  lemma {:induction false} ElementsRefused(input: Input, i: nat, at: nat, depth: nat)
    requires i <= |input.text| && depth <= NESTING_LIMIT && ParseElements(input, i, depth) == Err(at)
    ensures ItemsStuck(input, i, at, depth)
    decreases |input.text| - i, 3
  {
    hide ParseValue, ParseElements, SkipSpace, ValueSpelled, Nesting, Stuck, GapEnds;
    var text := input.text;
    ElementsTurn(input, i, depth);
    var a := SkipSpace(text, i);
    SkippedTo(text, i);
    var r := ParseValue(input, a, depth);
    if r.Err? {
      ElementsErr(input, i, depth);
      Refused(input, a, at, depth);
    } else {
      var m := SkipSpace(text, r.next);
      ParsedWithin(input, a, depth);
      SoundBetween(input, i, r.next, r.value, depth);
      SkippedTo(text, r.next);
      if At(text, m) == COMMA {
        ElementsRefused(input, m + 1, at, depth);
      } else {
        ElementsEnd(input, i, at, depth);
      }
      ItemsStuckAfter(input, i, at, depth, m, r.value);
    }
  }

  lemma ElementsErr(input: Input, i: nat, depth: nat)
    requires i <= |input.text| && ParseValue(input, SkipSpace(input.text, i), depth).Err?
    ensures ParseElements(input, i, depth) == Err(ParseValue(input, SkipSpace(input.text, i), depth).at)
  {
    hide ParseValue, SkipSpace;
  }

  lemma ElementsEnd(input: Input, i: nat, at: nat, depth: nat)
    requires i <= |input.text| && ParseElements(input, i, depth) == Err(at) && ParseValue(input, SkipSpace(input.text, i), depth).Ok?
    requires At(input.text, SkipSpace(input.text, ParseValue(input, SkipSpace(input.text, i), depth).next)) != COMMA
    ensures var m := SkipSpace(input.text, ParseValue(input, SkipSpace(input.text, i), depth).next);
            at == m && At(input.text, m) != RIGHT_BRACKET
  {
    hide ParseValue, SkipSpace;
  }

  lemma ItemsStuckAfter(input: Input, i: nat, at: nat, depth: nat, c: nat, v: Json)
    requires i <= c <= |input.text| && ValueSpelled(input, i, c, v) && NestsWithin(v, depth) && GapEnds(input.text, c, c)
    requires if ByteAt(input.text, c, ',') then ItemsStuck(input, c + 1, at, depth) else !ByteAt(input.text, c, ']') && at == c
    ensures ItemsStuck(input, i, at, depth)
  {
    hide ValueSpelled, Nesting, Stuck, GapEnds;
  }

  lemma {:induction false} ObjectRefused(input: Input, i: nat, at: nat, depth: nat)
    requires i < |input.text| && input.text[i] == LEFT_BRACE && depth <= NESTING_LIMIT && ParseObject(input, i, depth) == Err(at)
    ensures if depth >= 1000 then at == i else MembersStuck(input, i + 1, at, depth + 1)
    decreases |input.text| - i, 1
  {
    hide ParseMembers, SkipSpace, MembersStuck;
    if depth < NESTING_LIMIT {
      MembersSkip(input, i + 1, depth + 1);
      MembersRefused(input, i + 1, at, depth + 1);
    }
  }

  lemma {:induction false} MemberRefused(input: Input, i: nat, at: nat, depth: nat)
    requires i <= |input.text| && depth <= NESTING_LIMIT && ParseMember(input, i, depth) == Err(at)
    ensures MemberStuck(input, i, at, depth)
    decreases |input.text| - i, 3
  {
    hide ParseValue, ParseString, SkipSpace, StringSpelled, StringStuck, Stuck, GapEnds;
    var text := input.text;
    var a := SkipSpace(text, i);
    SkippedTo(text, i);
    var key := ParseString(input, a);
    if key.Err? {
      StringRefused(input, a, at);
    } else {
      var b := key.next;
      StringExact(input, a, b, key.value);
      SkippedTo(text, b);
      var c := SkipSpace(text, b);
      if At(text, c) != COLON {
        NoColon(input, i, at, depth, a, b, key.value);
      } else {
        SkippedGap(text, i);
        SkippedGap(text, b);
        assert NameSpelled(text, i, c, key.value);
        SkippedTo(text, c + 1);
        Refused(input, SkipSpace(text, c + 1), at, depth);
      }
    }
  }

  lemma NoColon(input: Input, i: nat, at: nat, depth: nat, a: nat, b: nat, key: Str)
    requires i <= |input.text| && GapEnds(input.text, i, a) && StringSpelled(input.text, a, b, key) && GapEnds(input.text, b, at) && !ByteAt(input.text, at, ':')
    ensures MemberStuck(input, i, at, depth)
  {
    hide StringSpelled, GapEnds, Stuck;
  }

  lemma {:induction false} MembersRefused(input: Input, i: nat, at: nat, depth: nat)
    requires i <= |input.text| && depth <= NESTING_LIMIT && ParseMembers(input, i, depth) == Err(at)
    ensures MembersStuck(input, i, at, depth)
    decreases |input.text| - i, 4
  {
    hide ParseMember, SkipSpace, MemberSpelled, Nesting, GapEnds, MemberStuck;
    var r := ParseMember(input, i, depth);
    if r.Err? {
      MemberRefused(input, i, at, depth);
    } else {
      var m := r.next;
      SoundMember(input, i, m, r.value, depth);
      MemberGap(input, i, depth);
      if At(input.text, m) == COMMA { MembersRefused(input, m + 1, at, depth); }
      MembersStuckAfter(input, i, at, depth, m, r.value);
    }
  }

  lemma MemberGap(input: Input, i: nat, depth: nat)
    requires i <= |input.text| && ParseMember(input, i, depth).Ok?
    ensures i <= ParseMember(input, i, depth).next && GapEnds(input.text, ParseMember(input, i, depth).next, ParseMember(input, i, depth).next)
  {
    hide ParseValue, ParseString, SkipSpace;
    var key := ParseString(input, SkipSpace(input.text, i));
    var v := ParseValue(input, SkipSpace(input.text, SkipSpace(input.text, key.next) + 1), depth);
    ParsedWithin(input, SkipSpace(input.text, SkipSpace(input.text, key.next) + 1), depth);
    SkippedTo(input.text, v.next);
  }

  lemma MembersStuckAfter(input: Input, i: nat, at: nat, depth: nat, c: nat, m: Member<Json>)
    requires i <= c <= |input.text| && MemberSpelled(input, i, c, m) && NestsWithin(m.value, depth) && GapEnds(input.text, c, c)
    requires if ByteAt(input.text, c, ',') then MembersStuck(input, c + 1, at, depth) else !ByteAt(input.text, c, '}') && at == c
    ensures MembersStuck(input, i, at, depth)
  {
    hide MemberSpelled, Nesting, MemberStuck, GapEnds;
  }

  // ---- whole texts ----

  /** The value is stuck, or something follows it where the end is asked for; a place beyond the text is its end. */
  ghost predicate TextStuck(input: Input, whole: bool, at: nat) {
    exists m: nat, a: nat ::
      && MarkEnds(input.text, m) && GapEnds(input.text, m, a)
      && ((exists p: nat :: Stuck(input, a, p, 0) && at == if p <= |input.text| then p else |input.text|)
          || (whole && at < |input.text|
              && exists b: nat, v: Json :: Spells(input, a, b, v) && Nesting(v) <= 1000 && GapEnds(input.text, b, at)))
  }

  /** Where `cJSON_ParseWithOpts` refuses a text, the reported place is one where it is stuck. */
  lemma TextRefused(input: Input, whole: bool, at: nat)
    requires ParseWithOpts(input, whole) == Err(at)
    ensures TextStuck(input, whole, at)
  {
    hide ParseValue, Spells, SkipSpace, SkipMark, Stuck, GapEnds, Nesting;
    var m := SkipMark(input.text);
    var a := SkipSpace(input.text, m);
    SameMark(input.text);
    SkippedTo(input.text, m);
    var r := ParseValue(input, a, 0);
    if r.Err? {
      Refused(input, a, r.at, 0);
    } else {
      ParsedWithin(input, a, 0);
      ParseExact(input, a, r.next, r.value, 0);
      SkippedTo(input.text, r.next);
    }
  }
}

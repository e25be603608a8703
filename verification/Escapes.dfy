/** String literals: what `print_string_ptr` writes, what the two passes of `parse_string` read, and the size computed between the passes. */
module Escapes {
  import opened Bytes
  import opened Pointers

  const QUOTE: cchar := 34
  const BACKSLASH: cchar := 92
  const LETTER_B: cchar := 98
  const LETTER_F: cchar := 102
  const LETTER_N: cchar := 110
  const LETTER_R: cchar := 114
  const LETTER_T: cchar := 116
  const LETTER_U: cchar := 117

  // ---- writing ----

  /** A digit of `%04x`. */
  function HexDigit(n: nat): cchar
    requires n < 16
  {
    if n < 10 then 48 + n else 87 + n
  }

  /** What one character of a string is printed as. */
  function EscapeChar(c: cchar): Str {
    if c > 31 && c != QUOTE && c != BACKSLASH then [c]
    else
      [BACKSLASH] +
      if c == BACKSLASH || c == QUOTE then [c]
      else if c == 8 then [LETTER_B]
      else if c == 12 then [LETTER_F]
      else if c == 10 then [LETTER_N]
      else if c == 13 then [LETTER_R]
      else if c == 9 then [LETTER_T]
      else [LETTER_U, 48, 48, HexDigit(c / 16), HexDigit(c % 16)]
  }

  function EscapeText(s: Str): Str {
    if s == [] then [] else EscapeChar(s[0]) + EscapeText(s[1..])
  }

  /** The literal that `print_string_ptr` writes. */
  function Literal(s: Str): Str {
    [QUOTE] + EscapeText(s) + [QUOTE]
  }

  /** What the counting loop of `print_string_ptr` adds for one character. */
  function ExtraFor(c: cchar): nat {
    if c in {QUOTE, BACKSLASH, 8, 12, 10, 13, 9} then 1 else if c < 32 then 5 else 0
  }

  /** The escape count of that loop. */
  function EscapeCount(s: Str): nat {
    if s == [] then 0 else ExtraFor(s[0]) + EscapeCount(s[1..])
  }

  /** The count of the first loop is exactly what the second loop writes. */
  lemma {:induction false} EscapeCountExact(s: Str)
    ensures |EscapeText(s)| == |s| + EscapeCount(s)
    ensures EscapeCount(s) == 0 <==> EscapeText(s) == s
  {
    if s != [] {
      EscapeCountExact(s[1..]);
      assert s == [s[0]] + s[1..];
      if EscapeText(s) == s { assert |EscapeText(s)| == |s|; }
    }
  }

  // ---- reading: the first pass ----

  /** The first pass: the index of the closing quote, from the character after the opening one. */
  function ScanString(text: Str, i: nat): (end: Option<nat>)
    requires i <= |text| + 1
    ensures end.Some? ==> i <= end.value < |text| && text[end.value] == QUOTE
    decreases |text| + 1 - i
  {
    if i > |text| then None
    else if At(text, i) == QUOTE then Some(i)
    else if At(text, i) == BACKSLASH then (if i + 1 > |text| then None else ScanString(text, i + 2))
    else ScanString(text, i + 1)
  }

  /** The escape sequences that the first pass, begun at `i`, counts before place `p`. */
  function EscapesBefore(text: Str, i: nat, p: nat): nat
    decreases p - i
  {
    if i >= p then 0
    else if At(text, i) == BACKSLASH then 1 + EscapesBefore(text, i + 2, p)
    else EscapesBefore(text, i + 1, p)
  }

  /** The bytes `parse_string` asks for: the literal with its opening quote, less the counted escapes, and a terminator. */
  function AllocatedFor(text: Str, start: nat, end: nat): int {
    end - (start - 1) - EscapesBefore(text, start, end) + 1
  }

  // ---- reading: the second pass ----

  function HexValue(c: byte): (v: Option<nat>)
    ensures v.Some? ==> v.value < 16
  {
    if 48 <= c <= 57 then Some(c - 48)
    else if 65 <= c <= 70 then Some(c - 55)
    else if 97 <= c <= 102 then Some(c - 87)
    else None
  }

  /** `parse_hex4`: four hexadecimal digits, or 0 if one of them is none. */
  function ParseHex4(text: Str, i: nat): (h: nat)
    ensures h < 0x10000
  {
    match (HexValue(At(text, i)), HexValue(At(text, i + 1)), HexValue(At(text, i + 2)), HexValue(At(text, i + 3)))
    case (Some(a), Some(b), Some(c), Some(d)) => ((a * 16 + b) * 16 + c) * 16 + d
    case (_, _, _, _) => 0
  }

  /** The last `n` bytes of an encoding, filled from the end: six bits each. */
  function Continuation(codepoint: nat, n: nat): seq<byte>
    decreases n
  {
    if n == 0 then [] else Continuation(codepoint / 64, n - 1) + [0x80 + codepoint % 64]
  }

  /** The encoder at the end of `utf16_literal_to_utf8`. */
  function EncodeUtf8(codepoint: nat): (r: seq<byte>)
    requires codepoint < 0x110000
    ensures 1 <= |r| <= 4
    ensures codepoint < 0x10000 ==> |r| <= 3
  {
    if codepoint < 0x80 then [codepoint]
    else if codepoint < 0x800 then [0xC0 + codepoint / 64] + Continuation(codepoint, 1)
    else if codepoint < 0x10000 then [0xE0 + codepoint / 64 / 64] + Continuation(codepoint, 2)
    else [0xF0 + codepoint / 64 / 64 / 64] + Continuation(codepoint, 3)
  }

  predicate HighSurrogate(n: nat) { 0xD800 <= n <= 0xDBFF }
  predicate LowSurrogate(n: nat) { 0xDC00 <= n <= 0xDFFF }

  datatype Literal16 = Literal16(length: nat, codepoint: nat)

  /** The reader in `utf16_literal_to_utf8`: one or two `\u` sequences; an invalid digit reads as code 0. */
  function ReadUtf16(text: Str, i: nat, end: nat): (r: Option<Literal16>)
    ensures r.Some? ==> r.value.codepoint < 0x110000 && r.value.length in {6, 12} && i + r.value.length <= end
    ensures r.Some? && r.value.length == 6 ==> r.value.codepoint < 0x10000
  {
    if end < i + 6 then None
    else
      var first := ParseHex4(text, i + 2);
      if LowSurrogate(first) then None
      else if HighSurrogate(first) then
        if end < i + 12 || At(text, i + 6) != BACKSLASH || At(text, i + 7) != LETTER_U then None
        else
          var second := ParseHex4(text, i + 8);
          if !LowSurrogate(second) then None
          else Some(Literal16(12, 0x10000 + first % 0x400 * 0x400 + second % 0x400))
      else Some(Literal16(6, first))
  }

  datatype Unescaped = Text(bytes: seq<byte>) | BadEscape(at: nat)

  function Prepend(bytes: seq<byte>, rest: Unescaped): Unescaped {
    match rest
    case Text(tail) => Text(bytes + tail)
    case BadEscape(_) => rest
  }

  /** The character that a two-character escape stands for. */
  function SimpleEscape(c: byte): Option<byte> {
    if c == LETTER_B then Some(8)
    else if c == LETTER_F then Some(12)
    else if c == LETTER_N then Some(10)
    else if c == LETTER_R then Some(13)
    else if c == LETTER_T then Some(9)
    else if c == QUOTE || c == BACKSLASH || c == SLASH then Some(c)
    else None
  }

  /** The second pass, up to the closing quote at `end`. */
  function Unescape(text: Str, i: nat, end: nat): Unescaped
    requires end < |text|
    decreases end - i
  {
    if i >= end then Text([])
    else if text[i] != BACKSLASH then Prepend([text[i]], Unescape(text, i + 1, end))
    else if text[i + 1] == LETTER_U then
      match ReadUtf16(text, i, end)
      case None => BadEscape(i)
      case Some(l) => Prepend(EncodeUtf8(l.codepoint), Unescape(text, i + l.length, end))
    else
      match SimpleEscape(text[i + 1])
      case None => BadEscape(i)
      case Some(c) => Prepend([c], Unescape(text, i + 2, end))
  }

  // ---- the allocated size is enough, whatever the input ----

  /** Of two neighbouring places at most one begins a counted escape. */
  lemma {:induction false} EscapesStep(text: Str, i: nat, p: nat)
    requires i <= p
    ensures EscapesBefore(text, i, p) <= EscapesBefore(text, i, p + 1)
    ensures EscapesBefore(text, i, p + 1) <= EscapesBefore(text, i, p) + (if At(text, p) == BACKSLASH then 1 else 0)
    ensures EscapesBefore(text, i, p + 2) <= EscapesBefore(text, i, p) + 1
    decreases p - i
  {
    OneEscape(text, p);
    OneEscape(text, p + 1);
    if i < p {
      if At(text, i) == BACKSLASH {
        if i + 2 <= p { EscapesStep(text, i + 2, p); }
      } else {
        EscapesStep(text, i + 1, p);
      }
    }
  }

  lemma OneEscape(text: Str, p: nat)
    ensures EscapesBefore(text, p, p + 1) == if At(text, p) == BACKSLASH then 1 else 0
  {
  }

  /** So at most half the places of a longer stretch do. */
  lemma {:induction false} EscapesHalf(text: Str, i: nat, p: nat, n: nat)
    requires i <= p
    ensures EscapesBefore(text, i, p + 2 * n) <= EscapesBefore(text, i, p) + n
  {
    if n > 0 {
      EscapesHalf(text, i, p, n - 1);
      EscapesStep(text, i, p + 2 * (n - 1));
    }
  }

  lemma UnescapeNext(text: Str, p: nat, end: nat)
    requires p < end < |text|
    ensures var c := text[p + 1];
            && (text[p] != BACKSLASH ==> Unescape(text, p, end) == Prepend([text[p]], Unescape(text, p + 1, end)))
            && (text[p] == BACKSLASH && c == LETTER_U ==>
                  Unescape(text, p, end) ==
                    if ReadUtf16(text, p, end).None? then BadEscape(p)
                    else Prepend(EncodeUtf8(ReadUtf16(text, p, end).value.codepoint),
                                 Unescape(text, p + ReadUtf16(text, p, end).value.length, end)))
            && (text[p] == BACKSLASH && c != LETTER_U ==>
                  Unescape(text, p, end) ==
                    if SimpleEscape(c).None? then BadEscape(p)
                    else Prepend([SimpleEscape(c).value], Unescape(text, p + 2, end)))
  {
    hide ReadUtf16, EncodeUtf8, SimpleEscape;
  }

  /** All that the second pass writes from `i` on, until it ends or stops at a bad escape. */
  function SecondPass(text: Str, i: nat, end: nat): seq<byte>
    requires end < |text|
    decreases end - i
  {
    if i >= end then []
    else if text[i] != BACKSLASH then [text[i]] + SecondPass(text, i + 1, end)
    else if text[i + 1] == LETTER_U then
      match ReadUtf16(text, i, end)
      case None => []
      case Some(l) => EncodeUtf8(l.codepoint) + SecondPass(text, i + l.length, end)
    else
      match SimpleEscape(text[i + 1])
      case None => []
      case Some(c) => [c] + SecondPass(text, i + 2, end)
  }

  /** Without a bad escape that is the unescaped string. */
  lemma {:induction false} SecondPassWhole(text: Str, i: nat, end: nat)
    requires end < |text| && Unescape(text, i, end).Text?
    ensures SecondPass(text, i, end) == Unescape(text, i, end).bytes
    decreases end - i
  {
    hide ReadUtf16, EncodeUtf8, SimpleEscape;
    if i < end {
      if text[i] != BACKSLASH {
        SecondPassWhole(text, i + 1, end);
      } else if text[i + 1] == LETTER_U {
        SecondPassWhole(text, i + ReadUtf16(text, i, end).value.length, end);
      } else {
        SecondPassWhole(text, i + 2, end);
      }
    }
  }

  lemma PassNext(text: Str, p: nat, end: nat)
    requires p < end < |text|
    ensures var c, l := text[p + 1], ReadUtf16(text, p, end);
            && (text[p] != BACKSLASH ==> |SecondPass(text, p, end)| == 1 + |SecondPass(text, p + 1, end)|)
            && (text[p] == BACKSLASH && c == LETTER_U ==>
                  |SecondPass(text, p, end)| ==
                    if l.None? then 0 else |EncodeUtf8(l.value.codepoint)| + |SecondPass(text, p + l.value.length, end)|)
            && (text[p] == BACKSLASH && c != LETTER_U ==>
                  |SecondPass(text, p, end)| == if SimpleEscape(c).None? then 0 else 1 + |SecondPass(text, p + 2, end)|)
  {
    hide ReadUtf16, EncodeUtf8, SimpleEscape;
  }

  lemma PassEnd(text: Str, end: nat)
    requires end < |text|
    ensures forall p {:trigger SecondPass(text, p, end)} | p >= end :: SecondPass(text, p, end) == []
  {
  }

  /** The escapes counted ahead of a place grow by at most one a step. */
  lemma {:induction false} EscapesGrow(text: Str, start: nat, p: nat, q: nat)
    requires start <= p <= q
    ensures EscapesBefore(text, start, p) <= EscapesBefore(text, start, q) <= EscapesBefore(text, start, p) + (q - p)
    decreases q - p
  {
    if p < q {
      EscapesStep(text, start, p);
      EscapesGrow(text, start, p + 1, q);
    }
  }

  /** At every place of the second pass: what is still to be written fits what is still to be read, less the escapes still to be counted. */
  lemma {:induction false} PassFits(text: Str, start: nat, i: nat, end: nat)
    requires start <= i && end < |text|
    ensures i <= end ==> |SecondPass(text, i, end)| <= end + 1 - i - (EscapesBefore(text, start, end) - EscapesBefore(text, start, i))
    decreases end - i
  {
    hide SecondPass, EscapesBefore, ReadUtf16, EncodeUtf8;
    PassEnd(text, end);
    if i < end {
      PassNext(text, i, end);
      EscapesStep(text, start, i);
      EscapesGrow(text, start, i, end);
      if text[i] != BACKSLASH {
        PassFits(text, start, i + 1, end);
      } else if text[i + 1] == LETTER_U {
        var l := ReadUtf16(text, i, end);
        if l.Some? {
          EncodedLength(l.value);
          EscapesHalf(text, start, i, l.value.length / 2);
          PassFits(text, start, i + l.value.length, end);
        }
      } else {
        if i + 1 == end { EscapesStep(text, start, end - 1); }
        PassFits(text, start, i + 2, end);
      }
    }
  }

  /** A code point of one unit takes at most three bytes, and one of two takes four. */
  lemma EncodedLength(l: Literal16)
    requires l.codepoint < 0x110000 && l.length in {6, 12} && (l.length == 6 ==> l.codepoint < 0x10000)
    ensures 2 * |EncodeUtf8(l.codepoint)| <= l.length
  {
  }

  /**
   * For every text, well formed or not, what the second pass writes and a terminator fit the allocation, even where
   * a bad escape has put the two passes out of step.
   */
  lemma AllocationSuffices(text: Str, start: nat)
    requires start <= |text| + 1 && ScanString(text, start).Some?
    ensures var end := ScanString(text, start).value;
            && |SecondPass(text, start, end)| + 1 <= AllocatedFor(text, start, end)
            && (Unescape(text, start, end).Text? ==> Unescape(text, start, end).bytes == SecondPass(text, start, end))
  {
    var end := ScanString(text, start).value;
    PassFits(text, start, start, end);
    if Unescape(text, start, end).Text? { SecondPassWhole(text, start, end); }
  }
}

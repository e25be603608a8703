/** Every way of writing a string literal (section 7 of RFC 8259), and what `parse_string` reads it as. */
module Spellings {
  import opened Bytes
  import opened Pointers
  import opened Escapes

  // ---- UTF-8 ----

  /** The table of section 3 of RFC 3629. */
  function Utf8(u: nat): (r: Str)
    requires 0 < u < 0x110000
    ensures 1 <= |r| <= 4
  {
    if u < 0x80 then [u]
    else if u < 0x800 then [0xC0 + u / 0x40, 0x80 + u % 0x40]
    else if u < 0x10000 then [0xE0 + u / 0x1000, 0x80 + u / 0x40 % 0x40, 0x80 + u % 0x40]
    else [0xF0 + u / 0x40000, 0x80 + u / 0x1000 % 0x40, 0x80 + u / 0x40 % 0x40, 0x80 + u % 0x40]
  }

  /** The encoder's loop, which fills in the bytes from the last to the first, writes that table. */
  lemma EncodeIsUtf8(u: nat)
    requires 0 < u < 0x110000
    ensures EncodeUtf8(u) == Utf8(u)
  {
    assert u / 0x40 / 0x40 == u / 0x1000 && u / 0x40 / 0x40 / 0x40 == u / 0x40000;
    assert Continuation(u, 1) == Continuation(u / 64, 0) + [0x80 + u % 64];
    assert Continuation(u, 2) == Continuation(u / 64, 1) + [0x80 + u % 64];
    assert Continuation(u, 3) == Continuation(u / 64, 2) + [0x80 + u % 64];
  }

  /** A Unicode scalar value. */
  predicate Scalar(u: nat) {
    u < 0xD800 || 0xE000 <= u < 0x110000
  }

  predicate Follows(c: byte) { 0x80 <= c < 0xC0 }

  /** The scalar value at the head of a text and the number of bytes it takes; overlong forms and surrogates are refused. */
  function DecodeUtf8(s: Str): Option<(nat, nat)> {
    var a, b, c, d := At(s, 0), At(s, 1), At(s, 2), At(s, 3);
    if 0 < a < 0x80 then Some((a, 1))
    else if 0xC2 <= a < 0xE0 && Follows(b) then Some(((a - 0xC0) * 0x40 + (b - 0x80), 2))
    else if 0xE0 <= a < 0xF0 && Follows(b) && Follows(c) then
      var u := ((a - 0xE0) * 0x40 + (b - 0x80)) * 0x40 + (c - 0x80);
      if u < 0x800 || !Scalar(u) then None else Some((u, 3))
    else if 0xF0 <= a < 0xF8 && Follows(b) && Follows(c) && Follows(d) then
      var u := (((a - 0xF0) * 0x40 + (b - 0x80)) * 0x40 + (c - 0x80)) * 0x40 + (d - 0x80);
      if u < 0x10000 || !Scalar(u) then None else Some((u, 4))
    else None
  }

  /** The bytes of a scalar value, whatever comes after them, stand for that value. */
  lemma Utf8RoundTrip(u: nat, rest: Str)
    requires 0 < u && Scalar(u)
    ensures DecodeUtf8(Utf8(u) + rest) == Some((u, |Utf8(u)|))
  {
    var e, s := Utf8(u), Utf8(u) + rest;
    assert forall i | 0 <= i < |e| :: At(s, i) == e[i];
    assert u == u / 0x40 * 0x40 + u % 0x40;
    assert u / 0x40 == u / 0x1000 * 0x40 + u / 0x40 % 0x40;
    assert u / 0x1000 == u / 0x40000 * 0x40 + u / 0x1000 % 0x40;
  }

  // ---- spellings ----

  /** One character of a literal: itself, a two-character escape, `\u` with four digits, or a surrogate pair of those. */
  datatype Spelling = Plain(c: cchar) | Short(c: cchar) | Unicode(digits: Str) | Pair(high: Str, low: Str)

  predicate HexText(s: Str) {
    |s| == 4 && forall i | 0 <= i < 4 :: HexValue(s[i]).Some?
  }

  function HexOf(s: Str): (n: nat)
    requires HexText(s)
    ensures n < 0x10000
  {
    ((HexValue(s[0]).value * 16 + HexValue(s[1]).value) * 16 + HexValue(s[2]).value) * 16 + HexValue(s[3]).value
  }

  predicate WellSpelled(sp: Spelling) {
    match sp
    case Plain(c) => c != QUOTE && c != BACKSLASH
    case Short(c) => SimpleEscape(c).Some?
    case Unicode(digits) => HexText(digits) && 0 < HexOf(digits) && Scalar(HexOf(digits))
    case Pair(high, low) =>
      && HexText(high) && HighSurrogate(HexOf(high))
      && HexText(low) && LowSurrogate(HexOf(low))
  }

  predicate AllWellSpelled(sps: seq<Spelling>) {
    forall sp | sp in sps :: WellSpelled(sp)
  }

  /** How a character is written between the quotes. */
  function Written(sp: Spelling): Str {
    match sp
    case Plain(c) => [c]
    case Short(c) => [BACKSLASH, c]
    case Unicode(digits) => [BACKSLASH, LETTER_U] + digits
    case Pair(high, low) => [BACKSLASH, LETTER_U] + (high + ([BACKSLASH, LETTER_U] + low))
  }

  /** The bytes a spelling stands for. */
  function Stands(sp: Spelling): (r: Str)
    requires WellSpelled(sp)
  {
    match sp
    case Plain(c) => [c]
    case Short(c) => [SimpleEscape(c).value]
    case Unicode(digits) => Utf8(HexOf(digits))
    case Pair(high, low) => Utf8(0x10000 + (HexOf(high) - 0xD800) * 0x400 + (HexOf(low) - 0xDC00))
  }

  function WrittenAll(sps: seq<Spelling>): Str {
    if sps == [] then [] else Written(sps[0]) + WrittenAll(sps[1..])
  }

  function StandsAll(sps: seq<Spelling>): Str
    requires AllWellSpelled(sps)
  {
    if sps == [] then [] else Stands(sps[0]) + StandsAll(sps[1..])
  }

  /** The text at place `i` begins with `s`. */
  predicate Here(text: Str, i: nat, s: Str) {
    i + |s| <= |text| && text[i..i + |s|] == s
  }

  lemma HereAt(text: Str, i: nat, s: Str)
    requires Here(text, i, s)
    ensures forall j | 0 <= j < |s| :: At(text, i + j) == s[j]
  {
    forall j | 0 <= j < |s|
      ensures At(text, i + j) == s[j]
    {
      assert text[i..i + |s|][j] == s[j];
    }
  }

  lemma HereSplit(text: Str, i: nat, a: Str, b: Str)
    requires Here(text, i, a + b)
    ensures Here(text, i, a) && Here(text, i + |a|, b)
  {
    assert text[i..i + |a + b|][..|a|] == a;
    assert text[i..i + |a + b|][|a|..] == b;
  }

  lemma ReadHex(text: Str, i: nat, digits: Str)
    requires HexText(digits) && Here(text, i, digits)
    ensures ParseHex4(text, i) == HexOf(digits)
    ensures ScanString(text, i) == ScanString(text, i + 4)
  {
    HereAt(text, i, digits);
    assert At(text, i + 0) == digits[0] && At(text, i + 1) == digits[1] && At(text, i + 2) == digits[2] && At(text, i + 3) == digits[3];
    assert ScanString(text, i) == ScanString(text, i + 1) == ScanString(text, i + 2);
    assert ScanString(text, i + 2) == ScanString(text, i + 3) == ScanString(text, i + 4);
  }

  /** One spelled character, read by both passes. */
  lemma ReadSpelling(text: Str, i: nat, sp: Spelling, end: nat)
    requires WellSpelled(sp) && Here(text, i, Written(sp)) && i + |Written(sp)| <= end < |text|
    ensures ScanString(text, i) == ScanString(text, i + |Written(sp)|)
    ensures Unescape(text, i, end) == Prepend(Stands(sp), Unescape(text, i + |Written(sp)|, end))
  {
    match sp
    case Plain(c) =>
      HereAt(text, i, Written(sp));
      assert At(text, i + 0) == c;
    case Short(c) =>
      HereAt(text, i, Written(sp));
      assert At(text, i + 0) == BACKSLASH && At(text, i + 1) == c;
    case Unicode(digits) => ReadUnicode(text, i, digits, end);
    case Pair(high, low) => ReadPair(text, i, high, low, end);
  }

  lemma ReadPrefix(text: Str, i: nat, rest: Str)
    requires Here(text, i, [BACKSLASH, LETTER_U] + rest)
    ensures i + 2 <= |text| && text[i] == BACKSLASH && text[i + 1] == LETTER_U && Here(text, i + 2, rest)
    ensures ScanString(text, i) == ScanString(text, i + 2)
  {
    HereSplit(text, i, [BACKSLASH, LETTER_U], rest);
    HereAt(text, i, [BACKSLASH, LETTER_U]);
    assert At(text, i + 0) == BACKSLASH && At(text, i + 1) == LETTER_U;
  }

  lemma ReadUnicode(text: Str, i: nat, digits: Str, end: nat)
    requires WellSpelled(Unicode(digits)) && Here(text, i, [BACKSLASH, LETTER_U] + digits) && i + 6 <= end < |text|
    ensures ScanString(text, i) == ScanString(text, i + 6)
    ensures Unescape(text, i, end) == Prepend(Utf8(HexOf(digits)), Unescape(text, i + 6, end))
  {
    hide ScanString, ParseHex4, HexOf, Utf8, EncodeUtf8, Here, HexText, Continuation;
    ReadPrefix(text, i, digits);
    ReadHex(text, i + 2, digits);
    EncodeIsUtf8(HexOf(digits));
  }

  /** The step of the second pass at an escape that `ReadUtf16` takes in. */
  lemma UnescapeUnits(text: Str, i: nat, end: nat, length: nat, codepoint: nat)
    requires i < end < |text| && text[i] == BACKSLASH && i + 1 < |text| && text[i + 1] == LETTER_U
    requires ReadUtf16(text, i, end) == Some(Literal16(length, codepoint))
    ensures Unescape(text, i, end) == Prepend(EncodeUtf8(codepoint), Unescape(text, i + length, end))
  {
    hide ReadUtf16, EncodeUtf8;
  }

  /** Two code units that make a surrogate pair. */
  lemma UnitsOfPair(text: Str, i: nat, high: Str, low: Str)
    requires HexText(high) && HexText(low) && Here(text, i, [BACKSLASH, LETTER_U] + (high + ([BACKSLASH, LETTER_U] + low)))
    ensures i + 8 <= |text| && text[i] == BACKSLASH && text[i + 1] == LETTER_U && text[i + 6] == BACKSLASH && text[i + 7] == LETTER_U
    ensures ParseHex4(text, i + 2) == HexOf(high) && ParseHex4(text, i + 8) == HexOf(low)
    ensures ScanString(text, i) == ScanString(text, i + 12)
  {
    hide ScanString, ParseHex4, HexOf, Here, HexText;
    ReadPrefix(text, i, high + ([BACKSLASH, LETTER_U] + low));
    HereSplit(text, i + 2, high, [BACKSLASH, LETTER_U] + low);
    LengthFour(high);
    ReadHex(text, i + 2, high);
    ReadPrefix(text, i + 6, low);
    ReadHex(text, i + 8, low);
  }

  lemma ReadPair(text: Str, i: nat, high: Str, low: Str, end: nat)
    requires WellSpelled(Pair(high, low)) && Here(text, i, Written(Pair(high, low))) && i + 12 <= end < |text|
    ensures ScanString(text, i) == ScanString(text, i + 12)
    ensures Unescape(text, i, end) == Prepend(Stands(Pair(high, low)), Unescape(text, i + 12, end))
  {
    hide ScanString, ParseHex4, HexOf, Utf8, EncodeUtf8, Here, HexText, Continuation, Unescape;
    UnitsOfPair(text, i, high, low);
    var codepoint := 0x10000 + HexOf(high) % 0x400 * 0x400 + HexOf(low) % 0x400;
    assert HexOf(high) % 0x400 == HexOf(high) - 0xD800 && HexOf(low) % 0x400 == HexOf(low) - 0xDC00;
    UnescapeUnits(text, i, end, 12, codepoint);
    EncodeIsUtf8(codepoint);
  }

  lemma LengthFour(s: Str)
    requires HexText(s)
    ensures |s| == 4
  {
  }

  lemma LiteralEnd(text: Str, i: nat, s: Str)
    requires Here(text, i, s + [QUOTE])
    ensures i + |s| < |text| && text[i + |s|] == QUOTE && Here(text, i, s)
  {
    HereSplit(text, i, s, [QUOTE]);
    HereAt(text, i + |s|, [QUOTE]);
    assert At(text, i + |s| + 0) == QUOTE;
  }

  /** Both passes over a literal, from its first character: the first stops at its quote, the second gives the bytes it stands for. */
  lemma {:induction false} ReadLiteral(text: Str, i: nat, sps: seq<Spelling>)
    requires AllWellSpelled(sps) && Here(text, i, WrittenAll(sps) + [QUOTE])
    ensures var end := i + |WrittenAll(sps)|;
            && end < |text|
            && ScanString(text, i) == Some(end)
            && Unescape(text, i, end) == Text(StandsAll(sps))
    decreases |sps|, 1
  {
    LiteralEnd(text, i, WrittenAll(sps));
    if sps != [] { ReadLiteralStep(text, i, sps); }
  }

  lemma {:induction false} ReadLiteralStep(text: Str, i: nat, sps: seq<Spelling>)
    requires sps != [] && AllWellSpelled(sps) && Here(text, i, WrittenAll(sps) + [QUOTE])
    requires i + |WrittenAll(sps)| < |text|
    ensures var end := i + |WrittenAll(sps)|;
            && ScanString(text, i) == Some(end)
            && Unescape(text, i, end) == Text(StandsAll(sps))
    decreases |sps|, 0
  {
    hide ScanString, Unescape, Here, Written, Stands, WellSpelled;
    var e, rest := Written(sps[0]), WrittenAll(sps[1..]);
    assert WrittenAll(sps) + [QUOTE] == e + (rest + [QUOTE]);
    assert sps[0] in sps;
    HereSplit(text, i, e, rest + [QUOTE]);
    ReadLiteral(text, i + |e|, sps[1..]);
    ReadSpelling(text, i, sps[0], i + |WrittenAll(sps)|);
  }

  // ---- what the printer writes is a spelling ----

  /** The spelling `print_string_ptr` chooses for a character. */
  function Spell(c: cchar): (sp: Spelling)
    ensures WellSpelled(sp) && Written(sp) == EscapeChar(c) && Stands(sp) == [c]
  {
    if c > 31 && c != QUOTE && c != BACKSLASH then Plain(c)
    else if c == BACKSLASH || c == QUOTE then Short(c)
    else if c == 8 then Short(LETTER_B)
    else if c == 12 then Short(LETTER_F)
    else if c == 10 then Short(LETTER_N)
    else if c == 13 then Short(LETTER_R)
    else if c == 9 then Short(LETTER_T)
    else Unicode([48, 48, HexDigit(c / 16), HexDigit(c % 16)])
  }

  /** Of all spellings of a character that section 7 of RFC 8259 allows, the chosen one is as short as any. */
  lemma PrintedShortest(c: cchar, sp: Spelling)
    requires WellSpelled(sp) && (sp.Plain? ==> sp.c >= 0x20) && Stands(sp) == [c]
    ensures |EscapeChar(c)| <= |Written(sp)|
    ensures forall k | 0 <= k < |EscapeChar(c)| :: EscapeChar(c)[k] >= 0x20
  {
    match sp
    case Plain(_) =>
    case Short(_) =>
    case Unicode(digits) => assert |Written(sp)| == 6;
    case Pair(high, low) => assert |Written(sp)| == 12;
  }

  function SpellAll(s: Str): (sps: seq<Spelling>) {
    if s == [] then [] else [Spell(s[0])] + SpellAll(s[1..])
  }

  lemma {:induction false} SpellAllStands(s: Str)
    ensures AllWellSpelled(SpellAll(s)) && WrittenAll(SpellAll(s)) == EscapeText(s) && StandsAll(SpellAll(s)) == s
  {
    if s != [] {
      SpellAllStands(s[1..]);
      assert s == [s[0]] + s[1..];
    }
  }

  /** `parse_string` undoes `print_string_ptr` on every string. */
  lemma PrintedLiteralReadsBack(text: Str, i: nat, s: Str)
    requires Here(text, i, EscapeText(s) + [QUOTE])
    ensures var end := i + |EscapeText(s)|;
            && end < |text|
            && ScanString(text, i) == Some(end)
            && Unescape(text, i, end) == Text(s)
  {
    hide Unescape, ScanString, Here, WellSpelled, Stands, Written, EscapeText;
    SpellAllStands(s);
    ReadLiteral(text, i, SpellAll(s));
  }

  // ---- every scalar value has a spelling by code units ----

  type scalar = u: nat | 0 < u < 0xD800 || 0xE000 <= u < 0x110000 witness 1

  lemma HexDigitValue(n: nat)
    requires n < 16
    ensures HexValue(HexDigit(n)) == Some(n)
  {
  }

  lemma Nibbles(n: nat) returns (a: nat, b: nat, c: nat, d: nat)
    requires n < 0x10000
    ensures a == n / 16 / 16 / 16 < 16 && b == n / 16 / 16 % 16 && c == n / 16 % 16 && d == n % 16
    ensures ((a * 16 + b) * 16 + c) * 16 + d == n
  {
    a, b, c, d := n / 16 / 16 / 16, n / 16 / 16 % 16, n / 16 % 16, n % 16;
  }

  function FourDigits(n: nat): Str
    requires n < 0x10000
  {
    [HexDigit(n / 16 / 16 / 16), HexDigit(n / 16 / 16 % 16), HexDigit(n / 16 % 16), HexDigit(n % 16)]
  }

  lemma FourDigitsValue(n: nat)
    requires n < 0x10000
    ensures HexText(FourDigits(n)) && HexOf(FourDigits(n)) == n
  {
    hide HexDigit, HexValue;
    var a, b, c, d := Nibbles(n);
    HexDigitValue(a);
    HexDigitValue(b);
    HexDigitValue(c);
    HexDigitValue(d);
  }

  function HighUnit(u: nat): (n: nat)
    requires 0x10000 <= u < 0x110000
    ensures HighSurrogate(n)
  {
    0xD800 + (u - 0x10000) / 0x400
  }

  function LowUnit(u: nat): (n: nat)
    requires 0x10000 <= u
    ensures LowSurrogate(n)
  {
    0xDC00 + (u - 0x10000) % 0x400
  }

  lemma UnitsOf(u: nat)
    requires 0x10000 <= u < 0x110000
    ensures 0x10000 + (HighUnit(u) - 0xD800) * 0x400 + (LowUnit(u) - 0xDC00) == u
  {
  }

  /** A scalar value as one or two UTF-16 code units. */
  function CodeUnits(u: scalar): Spelling {
    if u < 0x10000 then Unicode(FourDigits(u)) else Pair(FourDigits(HighUnit(u)), FourDigits(LowUnit(u)))
  }

  lemma CodeUnitsStand(u: scalar)
    ensures WellSpelled(CodeUnits(u)) && Stands(CodeUnits(u)) == Utf8(u)
  {
    hide FourDigits, HexText, HexOf, Utf8, HighUnit, LowUnit;
    if u < 0x10000 {
      FourDigitsValue(u);
    } else {
      FourDigitsValue(HighUnit(u));
      FourDigitsValue(LowUnit(u));
      UnitsOf(u);
    }
  }

  function CodeUnitsAll(us: seq<scalar>): seq<Spelling> {
    if us == [] then [] else [CodeUnits(us[0])] + CodeUnitsAll(us[1..])
  }

  function Utf8All(us: seq<scalar>): Str {
    if us == [] then [] else Utf8(us[0]) + Utf8All(us[1..])
  }

  lemma {:induction false} CodeUnitsAllStand(us: seq<scalar>)
    ensures AllWellSpelled(CodeUnitsAll(us)) && StandsAll(CodeUnitsAll(us)) == Utf8All(us)
  {
    hide CodeUnits, Utf8, WellSpelled, Stands;
    if us != [] {
      CodeUnitsStand(us[0]);
      CodeUnitsAllStand(us[1..]);
    }
  }

  /** Scalar values written as `\u` literals, in surrogate pairs where they need one, read as their UTF-8 form. */
  lemma ScalarsReadAsUtf8(text: Str, i: nat, us: seq<scalar>)
    requires Here(text, i, WrittenAll(CodeUnitsAll(us)) + [QUOTE])
    ensures var end := i + |WrittenAll(CodeUnitsAll(us))|;
            && end < |text|
            && ScanString(text, i) == Some(end)
            && Unescape(text, i, end) == Text(Utf8All(us))
  {
    hide CodeUnits, Utf8, WellSpelled, Stands, Written, Unescape, ScanString, Here;
    CodeUnitsAllStand(us);
    ReadLiteral(text, i, CodeUnitsAll(us));
  }

  /** Taking a UTF-8 text apart gives the scalar values it was made of, so no two sequences read alike. */
  function DecodeAll(s: Str): Option<seq<nat>>
    decreases |s|
  {
    if s == [] then Some([])
    else
      match DecodeUtf8(s)
      case None => None
      case Some((u, n)) =>
        if n > |s| || n == 0 then None
        else
          match DecodeAll(s[n..])
          case None => None
          case Some(us) => Some([u] + us)
  }

  lemma {:induction false} Utf8AllRoundTrip(us: seq<scalar>)
    ensures DecodeAll(Utf8All(us)) == Some(us)
    decreases |us|
  {
    hide DecodeUtf8, Utf8;
    if us != [] {
      Utf8RoundTrip(us[0], Utf8All(us[1..]));
      Utf8AllRoundTrip(us[1..]);
      assert (Utf8(us[0]) + Utf8All(us[1..]))[|Utf8(us[0])|..] == Utf8All(us[1..]);
      assert us == [us[0]] + us[1..];
    }
  }
}

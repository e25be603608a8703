/**
 * The texts that the parser takes, as a relation between stretches of a text and values: more than JSON in the
 * bytes of strings and in numbers, but exactly these.
 */
module Grammar {
  import opened Bytes
  import opened Json
  import opened Spellings
  import opened Parsing

  // ---- string literals ----

  /** One step of the second pass over a literal. */
  datatype Stroke = Raw(c: cchar) | Escape(c: cchar) | Unit(hex: Str) | Surrogates(high: Str, low: Str)

  /** The escapes of section 7 of RFC 8259. */
  function EscapeOf(c: cchar): Option<cchar> {
    if c == '"' as int || c == '\\' as int || c == '/' as int then Some(c)
    else if c == 'b' as int then Some(0x08)
    else if c == 'f' as int then Some(0x0C)
    else if c == 'n' as int then Some(0x0A)
    else if c == 'r' as int then Some(0x0D)
    else if c == 't' as int then Some(0x09)
    else None
  }

  function DigitOf(c: cchar): Option<nat> {
    if '0' as int <= c <= '9' as int then Some(c - '0' as int)
    else if 'A' as int <= c <= 'F' as int then Some(10 + c - 'A' as int)
    else if 'a' as int <= c <= 'f' as int then Some(10 + c - 'a' as int)
    else None
  }

  /** The code unit of four digits, or 0 if there is another character among them. */
  function CodeOf(hex: Str): nat
    requires |hex| == 4
  {
    match (DigitOf(hex[0]), DigitOf(hex[1]), DigitOf(hex[2]), DigitOf(hex[3]))
    case (Some(a), Some(b), Some(c), Some(d)) => 0x1000 * a + 0x100 * b + 0x10 * c + d
    case (_, _, _, _) => 0
  }

  predicate IsStroke(s: Stroke) {
    match s
    case Raw(c) => c != '\\' as int
    case Escape(c) => EscapeOf(c).Some?
    case Unit(hex) => |hex| == 4 && !(0xD800 <= CodeOf(hex) < 0xE000)
    case Surrogates(high, low) => |high| == 4 && |low| == 4 && 0xD800 <= CodeOf(high) < 0xDC00 && 0xDC00 <= CodeOf(low) < 0xE000
  }

  predicate AllStrokes(strokes: seq<Stroke>) {
    forall k | 0 <= k < |strokes| :: IsStroke(strokes[k])
  }

  const UNIT: Str := ['\\' as int, 'u' as int]

  function StrokeText(s: Stroke): Str {
    match s
    case Raw(c) => [c]
    case Escape(c) => ['\\' as int, c]
    case Unit(hex) => UNIT + hex
    case Surrogates(high, low) => UNIT + (high + (UNIT + low))
  }

  /** The bytes of a stroke; the code unit 0 gives a NUL, which ends the string. */
  function StrokeBytes(s: Stroke): seq<byte>
    requires IsStroke(s)
  {
    match s
    case Raw(c) => [c]
    case Escape(c) => [EscapeOf(c).value]
    case Unit(hex) =>
      var nul: seq<byte> := [0];
      CodeBounded(hex);
      if CodeOf(hex) == 0 then nul else Utf8(CodeOf(hex))
    case Surrogates(high, low) => Utf8(0x10000 + 0x400 * (CodeOf(high) - 0xD800) + (CodeOf(low) - 0xDC00))
  }

  lemma CodeBounded(hex: Str)
    requires |hex| == 4
    ensures CodeOf(hex) < 0x10000
  {
  }

  function StrokesText(strokes: seq<Stroke>): Str {
    if strokes == [] then [] else StrokeText(strokes[0]) + StrokesText(strokes[1..])
  }

  function StrokesBytes(strokes: seq<Stroke>): seq<byte>
    requires AllStrokes(strokes)
  {
    if strokes == [] then []
    else
      assert forall k | 0 <= k < |strokes| - 1 :: strokes[1..][k] == strokes[k + 1];
      StrokeBytes(strokes[0]) + StrokesBytes(strokes[1..])
  }

  /** Read in pairs of a backslash and any character, the text has no quote: the first pass goes on. */
  predicate Unquoted(s: Str) {
    s == [] ||
    if s[0] == '\\' as int then |s| >= 2 && Unquoted(s[2..]) else s[0] != '"' as int && Unquoted(s[1..])
  }

  /**
   * What is between the quotes, as the second pass takes it. A `\u` that is followed by a backslash may put the
   * passes out of step, so that the last escape is the closing quote's.
   */
  predicate Strokes(body: Str, strokes: seq<Stroke>) {
    && AllStrokes(strokes)
    && (|| body == StrokesText(strokes)
        || (strokes != [] && strokes[|strokes| - 1] == Escape('"' as int) && body + ['"' as int] == StrokesText(strokes)))
  }

  /** A string literal, which stands for its bytes up to the first NUL. */
  ghost predicate StringSpelled(text: Str, i: nat, n: nat, s: Str) {
    && i + 2 <= n <= |text| && text[i] == '"' as int && text[n - 1] == '"' as int && Unquoted(text[i + 1..n - 1])
    && exists strokes :: Strokes(text[i + 1..n - 1], strokes) && s == CString(StrokesBytes(strokes))
  }

  // ---- numbers ----

  predicate NumberByte(c: byte) {
    '0' as int <= c <= '9' as int || c == '+' as int || c == '-' as int || c == 'e' as int || c == 'E' as int || c == '.' as int
  }

  /** The longest run of such bytes, up to 63 of them: what `strtod` is given. */
  predicate LongestRun(text: Str, i: nat, m: nat) {
    && i <= m <= |text| && m - i <= 63 && (forall k | i <= k < m :: NumberByte(text[k]))
    && (m - i == 63 || m == |text| || !NumberByte(text[m]))
  }

  /** The integer next to the number on the side of zero, within the range of `int`. */
  predicate Converts(r: real, x: int) {
    if r >= INT_MAX as real then x == INT_MAX
    else if r <= INT_MIN as real then x == INT_MIN
    else if r >= 0.0 then x as real <= r < (x + 1) as real
    else (x - 1) as real < r <= x as real
  }

  /** A number is as long as `strtod` says. */
  ghost predicate NumberSpelled(input: Input, i: nat, n: nat, x: int) {
    && i < n <= |input.text| && (input.text[i] == '-' as int || '0' as int <= input.text[i] <= '9' as int)
    && exists m: nat :: LongestRun(input.text, i, m) && input.strtod(input.text[i..m]).1 == n - i && Converts(input.strtod(input.text[i..m]).0, x)
  }

  // ---- values ----

  /** Nothing but white space from `i` to `n`. */
  predicate Gap(text: Str, i: nat, n: nat) {
    i <= n <= |text| && forall k | i <= k < n :: text[k] <= 32
  }

  predicate ByteAt(text: Str, i: nat, c: char) {
    i < |text| && text[i] == c as int
  }

  /** The text from `i` to `n` is the value. */
  ghost predicate Spells(input: Input, i: nat, n: nat, v: Json)
    decreases v, 2
  {
    i <= n <= |input.text| &&
    match v
    case Null => input.text[i..n] == Ascii("null")
    case False => input.text[i..n] == Ascii("false")
    case True => input.text[i..n] == Ascii("true")
    case Number(x) => NumberSpelled(input, i, n, x)
    case String(s) => StringSpelled(input.text, i, n, s)
    case Array(items) => ByteAt(input.text, i, '[') && ItemsSpelled(input, i + 1, n, items, true)
    case Object(members) => ByteAt(input.text, i, '{') && MembersSpelled(input, i + 1, n, members, true)
  }

  /** A value between two runs of white space. */
  ghost predicate ValueSpelled(input: Input, i: nat, n: nat, v: Json)
    decreases v, 3
  {
    exists a: nat, b: nat :: Gap(input.text, i, a) && Gap(input.text, b, n) && Spells(input, a, b, v)
  }

  /** The elements of an array, and its closing bracket; only an array without any has nothing there. */
  ghost predicate ItemsSpelled(input: Input, i: nat, n: nat, items: seq<Json>, first: bool)
    decreases items, 0
  {
    if items == [] then first && n > 0 && Gap(input.text, i, n - 1) && ByteAt(input.text, n - 1, ']')
    else
      exists c: nat ::
        && ValueSpelled(input, i, c, items[0])
        && if |items| == 1 then ByteAt(input.text, c, ']') && n == c + 1
           else ByteAt(input.text, c, ',') && ItemsSpelled(input, c + 1, n, items[1..], false)
  }

  /** A name between two runs of white space, up to the colon at `n`. */
  ghost predicate NameSpelled(text: Str, i: nat, n: nat, key: Str) {
    ByteAt(text, n, ':') && exists a: nat, b: nat :: Gap(text, i, a) && Gap(text, b, n) && StringSpelled(text, a, b, key)
  }

  ghost predicate MemberSpelled(input: Input, i: nat, n: nat, m: Member<Json>)
    decreases m, 4
  {
    exists c: nat :: NameSpelled(input.text, i, c, m.key) && ValueSpelled(input, c + 1, n, m.value)
  }

  ghost predicate MembersSpelled(input: Input, i: nat, n: nat, members: seq<Member<Json>>, first: bool)
    decreases members, 0
  {
    if members == [] then first && n > 0 && Gap(input.text, i, n - 1) && ByteAt(input.text, n - 1, '}')
    else
      exists c: nat ::
        && MemberSpelled(input, i, c, members[0])
        && if |members| == 1 then ByteAt(input.text, c, '}') && n == c + 1
           else ByteAt(input.text, c, ',') && MembersSpelled(input, c + 1, n, members[1..], false)
  }
}

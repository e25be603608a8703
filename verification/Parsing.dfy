/** The recursive-descent parser, as functions of the text and the cursor. */
module Parsing {
  import opened Bytes
  import opened Json
  import opened Pointers
  import opened Escapes
  import opened Spellings

  const NESTING_LIMIT: nat := 1000

  const COMMA: cchar := 44
  const COLON: cchar := 58
  const LEFT_BRACKET: cchar := 91
  const RIGHT_BRACKET: cchar := 93
  const LEFT_BRACE: cchar := 123
  const RIGHT_BRACE: cchar := 125

  const NULL_WORD: Str := [110, 117, 108, 108]
  const FALSE_WORD: Str := [102, 97, 108, 115, 101]
  const TRUE_WORD: Str := [116, 114, 117, 101]
  const BYTE_ORDER_MARK: Str := [0xEF, 0xBB, 0xBF]

  ghost predicate WithinText(f: Str -> (real, nat)) {
    forall s :: f(s).1 <= |s|
  }

  /** The library's `strtod`: a number and how many characters of the text it took. */
  type Strtod = f: Str -> (real, nat) | WithinText(f) witness (s: Str) => (0.0, 0)

  /** What a parse reads: a text, which a NUL follows, with the number reader. */
  datatype Input = Input(text: Str, strtod: Strtod)

  /** A parsed value and the cursor after it, or the cursor where parsing failed. */
  datatype Parsed<+T> = Ok(value: T, next: nat) | Err(at: nat)

  // ---- leaves ----

  /** `buffer_skip_whitespace`: every byte up to 32 is white space; the cursor stops at the terminator. */
  function SkipSpace(text: Str, i: nat): (j: nat)
    requires i <= |text|
    ensures i <= j <= |text|
    ensures j < |text| ==> text[j] > 32
    ensures forall k | i <= k < j :: text[k] <= 32
    decreases |text| - i
  {
    if i < |text| && text[i] <= 32 then SkipSpace(text, i + 1) else i
  }

  predicate NumberChar(c: byte) {
    IsDigit(c) || c == 43 || c == DASH || c == 101 || c == 69 || c == 46
  }

  /** The characters copied for `strtod`: at most 63. */
  function NumberRun(text: Str, i: nat, n: nat): (r: nat)
    requires i + n <= |text|
    ensures n <= r && i + r <= |text|
    decreases |text| - i - n
  {
    if n < 63 && i + n < |text| && NumberChar(text[i + n]) then NumberRun(text, i, n + 1) else n
  }

  /** The conversion to `valueint`: saturating, and towards zero. */
  function ToInt(x: real): int32 {
    if x >= INT_MAX as real then INT_MAX
    else if x <= INT_MIN as real then INT_MIN
    else if x >= 0.0 then x.Floor
    else -((-x).Floor)
  }

  function ParseNumber(input: Input, i: nat): (r: Parsed<Json>)
    requires i <= |input.text|
    ensures r.Ok? ==> i < r.next <= |input.text|
    ensures r.Err? ==> i <= r.at <= |input.text| + 1
  {
    var run := input.text[i..i + NumberRun(input.text, i, 0)];
    var (x, used) := input.strtod(run);
    assert WithinText(input.strtod);
    if used == 0 then Err(i) else Ok(Number(ToInt(x)), i + used)
  }

  lemma {:induction false} CStringOfStr(s: Str)
    ensures CString(s) == s
  {
    if s != [] {
      CStringOfStr(s[1..]);
      assert s == [s[0]] + s[1..];
    }
  }

  function ParseString(input: Input, i: nat): (r: Parsed<Str>)
    requires i <= |input.text|
    ensures r.Ok? ==> i < r.next <= |input.text|
    ensures r.Err? ==> i <= r.at <= |input.text| + 1
  {
    if At(input.text, i) != QUOTE then Err(i + 1)
    else
      match ScanString(input.text, i + 1)
      case None => Err(i + 1)
      case Some(end) =>
        match Unescape(input.text, i + 1, end)
        case Text(bytes) => Ok(CString(bytes), end + 1)
        case BadEscape(at) => UnescapeStopsInside(input.text, i + 1, end); Err(at)
  }

  lemma {:induction false} UnescapeStopsInside(text: Str, i: nat, end: nat)
    requires end < |text| && Unescape(text, i, end).BadEscape?
    ensures i <= Unescape(text, i, end).at < end
    decreases end - i
  {
    hide ReadUtf16, SimpleEscape, EncodeUtf8;
    if text[i] != BACKSLASH {
      UnescapeStopsInside(text, i + 1, end);
    } else if text[i + 1] == LETTER_U {
      var l := ReadUtf16(text, i, end);
      if l.Some? { UnescapeStopsInside(text, i + l.value.length, end); }
    } else if SimpleEscape(text[i + 1]).Some? {
      UnescapeStopsInside(text, i + 2, end);
    }
  }

  // ---- containers ----

  predicate StartsNumber(c: byte) {
    c == DASH || IsDigit(c)
  }

  function ParseValue(input: Input, i: nat, depth: nat): (r: Parsed<Json>)
    requires i <= |input.text|
    ensures r.Ok? ==> i < r.next <= |input.text|
    ensures r.Err? ==> i <= r.at <= |input.text| + 1
    decreases |input.text| - i, 1
  {
    var c := At(input.text, i);
    if Here(input.text, i, NULL_WORD) then Ok(Null, i + 4)
    else if Here(input.text, i, FALSE_WORD) then Ok(False, i + 5)
    else if Here(input.text, i, TRUE_WORD) then Ok(True, i + 4)
    else if c == QUOTE then
      match ParseString(input, i)
      case Ok(s, next) => Ok(String(s), next)
      case Err(at) => Err(at)
    else if StartsNumber(c) then ParseNumber(input, i)
    else if c == LEFT_BRACKET then ParseArray(input, i, depth)
    else if c == LEFT_BRACE then ParseObject(input, i, depth)
    else Err(i)
  }

  function ParseArray(input: Input, i: nat, depth: nat): (r: Parsed<Json>)
    requires i < |input.text| && input.text[i] == LEFT_BRACKET
    ensures r.Ok? ==> i < r.next <= |input.text|
    ensures r.Err? ==> i <= r.at <= |input.text| + 1
    decreases |input.text| - i, 0
  {
    if depth >= NESTING_LIMIT then Err(i)
    else
      var j := SkipSpace(input.text, i + 1);
      if At(input.text, j) == RIGHT_BRACKET then Ok(Array([]), j + 1)
      else
        match ParseElements(input, j, depth + 1)
        case Ok(items, next) => Ok(Array(items), next)
        case Err(at) => Err(at)
  }

  /** The elements from the cursor on, and the closing bracket. */
  function ParseElements(input: Input, i: nat, depth: nat): (r: Parsed<seq<Json>>)
    requires i <= |input.text|
    ensures r.Ok? ==> i < r.next <= |input.text|
    ensures r.Err? ==> i <= r.at <= |input.text| + 1
    decreases |input.text| - i, 2
  {
    match ParseValue(input, SkipSpace(input.text, i), depth)
    case Err(at) => Err(at)
    case Ok(v, n) =>
      var m := SkipSpace(input.text, n);
      if At(input.text, m) == COMMA then
        match ParseElements(input, m + 1, depth)
        case Ok(rest, next) => Ok([v] + rest, next)
        case Err(at) => Err(at)
      else if At(input.text, m) == RIGHT_BRACKET then Ok([v], m + 1)
      else Err(m)
  }

  function ParseObject(input: Input, i: nat, depth: nat): (r: Parsed<Json>)
    requires i < |input.text| && input.text[i] == LEFT_BRACE
    ensures r.Ok? ==> i < r.next <= |input.text|
    ensures r.Err? ==> i <= r.at <= |input.text| + 1
    decreases |input.text| - i, 0
  {
    if depth >= NESTING_LIMIT then Err(i)
    else
      var j := SkipSpace(input.text, i + 1);
      if At(input.text, j) == RIGHT_BRACE then Ok(Object([]), j + 1)
      else
        match ParseMembers(input, j, depth + 1)
        case Ok(members, next) => Ok(Object(members), next)
        case Err(at) => Err(at)
  }

  /** One member from the cursor on, with the white space after it. */
  function ParseMember(input: Input, i: nat, depth: nat): (r: Parsed<Member<Json>>)
    requires i <= |input.text|
    ensures r.Ok? ==> i < r.next <= |input.text|
    ensures r.Err? ==> i <= r.at <= |input.text| + 1
    decreases |input.text| - i, 2
  {
    match ParseString(input, SkipSpace(input.text, i))
    case Err(at) => Err(at)
    case Ok(key, n) =>
      var m := SkipSpace(input.text, n);
      if At(input.text, m) != COLON then Err(m)
      else
        match ParseValue(input, SkipSpace(input.text, m + 1), depth)
        case Err(at) => Err(at)
        case Ok(v, p) => Ok(Member(key, v), SkipSpace(input.text, p))
  }

  /** The members from the cursor on, and the closing brace. */
  function ParseMembers(input: Input, i: nat, depth: nat): (r: Parsed<seq<Member<Json>>>)
    requires i <= |input.text|
    ensures r.Ok? ==> i < r.next <= |input.text|
    ensures r.Err? ==> i <= r.at <= |input.text| + 1
    decreases |input.text| - i, 3
  {
    match ParseMember(input, i, depth)
    case Err(at) => Err(at)
    case Ok(member, m) =>
      if At(input.text, m) == COMMA then
        match ParseMembers(input, m + 1, depth)
        case Ok(rest, next) => Ok([member] + rest, next)
        case Err(at) => Err(at)
      else if At(input.text, m) == RIGHT_BRACE then Ok([member], m + 1)
      else Err(m)
  }

  // ---- the entry point ----

  /** `skip_utf8_bom`: the mark is skipped only if more text than the mark follows. */
  function SkipMark(text: Str): (i: nat)
    ensures i <= |text|
  {
    if |text| >= 4 && text[..3] == BYTE_ORDER_MARK then 3 else 0
  }

  /** `cJSON_ParseWithOpts`; the cursor in the result is what the caller's end pointer is set to. */
  function ParseWithOpts(input: Input, requireNullTerminated: bool): (r: Parsed<Json>)
    ensures r.Ok? ==> r.next <= |input.text|
    ensures r.Err? ==> r.at <= |input.text|
  {
    match ParseValue(input, SkipSpace(input.text, SkipMark(input.text)), 0)
    case Err(at) => Err(if at <= |input.text| then at else |input.text|)
    case Ok(v, n) =>
      if !requireNullTerminated then Ok(v, n)
      else
        var m := SkipSpace(input.text, n);
        if At(input.text, m) != 0 then Err(m) else Ok(v, m)
  }
}

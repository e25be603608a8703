/** JSON pointers (sections 3 to 5 of RFC 6901): escaping, array indices, and following a pointer. */
module Pointers {
  import opened Bytes
  import opened Json

  const SLASH: cchar := 47
  const TILDE: cchar := 126
  const DASH: cchar := 45
  const ZERO: cchar := 48
  const ONE: cchar := 49
  const NINE: cchar := 57

  /** The number of values of a 64-bit `size_t`. */
  const SIZE_VALUES: nat := 0x1_0000_0000_0000_0000

  /** The byte a C program reads at an index of a string: its terminator at the end. */
  function At(s: Str, i: nat): byte {
    if i < |s| then s[i] else 0
  }

  /** The text stops here or goes on with another token. */
  predicate EndsToken(rest: Str) {
    rest == [] || rest[0] == SLASH
  }

  // ---- escaping ----

  function EncodeChar(c: cchar): Str {
    if c == SLASH then [TILDE, ONE] else if c == TILDE then [TILDE, ZERO] else [c]
  }

  /** `encode_string_as_pointer` */
  function Encode(s: Str): Str {
    if s == [] then [] else EncodeChar(s[0]) + Encode(s[1..])
  }

  /** `pointer_encoded_length` */
  method PointerEncodedLength(s: Str) returns (length: nat)
    ensures length == |Encode(s)|
  {
    var i := 0;
    length := 0;
    while i < |s|
      invariant i <= |s| && length + |Encode(s[i..])| == |Encode(s)|
    {
      assert s[i..][1..] == s[i + 1..];
      if s[i] == TILDE || s[i] == SLASH { length := length + 1; }
      i, length := i + 1, length + 1;
    }
  }

  lemma {:induction false} EncodeConcat(a: Str, b: Str)
    ensures Encode(a + b) == Encode(a) + Encode(b)
  {
    if a == [] {
      assert a + b == b;
    } else {
      assert (a + b)[1..] == a[1..] + b;
      EncodeConcat(a[1..], b);
    }
  }

  lemma {:induction false} EncodeNoSlash(s: Str)
    ensures SLASH !in Encode(s)
    ensures |Encode(s)| >= |s|
  {
    if s != [] {
      EncodeNoSlash(s[1..]);
    }
  }

  lemma SplitEncoding(key: Str, u: nat)
    requires u < |key|
    ensures Encode(key[..u + 1]) == Encode(key[..u]) + EncodeChar(key[u])
    ensures Encode(key[..u + 1]) <= Encode(key)
    ensures u <= |Encode(key[..u])|
  {
    assert key[..u + 1] == key[..u] + [key[u]];
    EncodeConcat(key[..u], [key[u]]);
    assert Encode([key[u]]) == EncodeChar(key[u]) + Encode([]);
    assert key == key[..u + 1] + key[u + 1..];
    EncodeConcat(key[..u + 1], key[u + 1..]);
    EncodeNoSlash(key[..u]);
  }

  method EncodeNext(destination: array<byte>, to: nat, c: cchar) returns (next: nat)
    requires to + |EncodeChar(c)| < destination.Length
    modifies destination
    ensures next == to + |EncodeChar(c)| && destination[..to] == old(destination[..to]) && destination[to..next] == EncodeChar(c)
  {
    next := to;
    if c == SLASH {
      destination[next], destination[next + 1] := TILDE, ONE;
      next := next + 1;
    } else if c == TILDE {
      destination[next], destination[next + 1] := TILDE, ZERO;
      next := next + 1;
    } else {
      destination[next] := c;
    }
    next := next + 1;
  }

  /** The loop of `encode_string_as_pointer`, which writes from `start` on. */
  method EncodeStringAsPointer(destination: array<byte>, start: nat, source: Str)
    requires start + |Encode(source)| < destination.Length
    modifies destination
    ensures var end := start + |Encode(source)|;
            && destination[..start] == old(destination[..start]) && destination[start..end] == Encode(source)
            && destination[end] == 0
  {
    hide EncodeChar;
    var i, to := 0, start;
    while i < |source|
      invariant i <= |source| && to == start + |Encode(source[..i])| && to <= start + |Encode(source)|
      invariant destination[..start] == old(destination[..start])
      invariant destination[start..to] == Encode(source[..i])
    {
      SplitEncoding(source, i);
      ghost var end, done: seq<byte> := to, destination[..to];
      to := EncodeNext(destination, to, source[i]);
      assert destination[start..end] == done[start..] && destination[..start] == done[..start];
      assert destination[start..to] == destination[start..end] + destination[end..to];
      i := i + 1;
    }
    assert source[..i] == source;
    destination[to] := 0;
  }

  lemma {:induction false} EncodePlain(s: Str)
    requires SLASH !in s && TILDE !in s
    ensures Encode(s) == s
  {
    if s != [] {
      EncodePlain(s[1..]);
    }
  }

  /** `compare_pointers`: does the next token of a pointer name this member? */
  function ComparePointers(name: Str, pointer: Str, cs: bool): bool
    decreases |name|
  {
    if name == [] || EndsToken(pointer) then
      EndsToken(pointer) == (name == [])
    else if pointer[0] == TILDE then
      if (At(pointer, 1) != ZERO || name[0] != TILDE) && (At(pointer, 1) != ONE || name[0] != SLASH) then false
      else ComparePointers(name[1..], pointer[2..], cs)
    else if FoldChar(name[0], cs) != FoldChar(pointer[0], cs) then false
    else ComparePointers(name[1..], pointer[1..], cs)
  }

  /** The loop of `compare_pointers`, with a cursor in each string. */
  method NamesToken(name: Str, pointer: Str, cs: bool) returns (r: bool)
    ensures r == ComparePointers(name, pointer, cs)
  {
    var i, j := 0, 0;
    while i < |name| && j < |pointer| && pointer[j] != SLASH
      invariant i <= |name| && j <= |pointer|
      invariant ComparePointers(name[i..], pointer[j..], cs) == ComparePointers(name, pointer, cs)
    {
      TokenStep(name, pointer, i, j, cs);
      if pointer[j] == TILDE {
        if (At(pointer, j + 1) != ZERO || name[i] != TILDE) && (At(pointer, j + 1) != ONE || name[i] != SLASH) { return false; }
        j := j + 1;
      } else if FoldChar(name[i], cs) != FoldChar(pointer[j], cs) {
        return false;
      }
      i, j := i + 1, j + 1;
    }
    r := (j < |pointer| && pointer[j] != SLASH) == (i < |name|);
  }

  lemma TokenStep(name: Str, pointer: Str, i: nat, j: nat, cs: bool)
    requires i < |name| && j < |pointer| && pointer[j] != SLASH
    ensures name[i..][1..] == name[i + 1..] && pointer[j..][1..] == pointer[j + 1..]
    ensures At(pointer[j..], 1) == At(pointer, j + 1)
    ensures j + 1 < |pointer| ==> pointer[j..][2..] == pointer[j + 2..]
  {
  }

  /** The rest of a pointer after its next token. */
  function SkipToken(pointer: Str): (rest: Str)
    ensures |rest| <= |pointer| && EndsToken(rest)
  {
    if EndsToken(pointer) then pointer else SkipToken(pointer[1..])
  }

  lemma {:induction false} SkipWithin(token: Str, rest: Str)
    requires SLASH !in token && EndsToken(rest)
    ensures SkipToken(token + rest) == rest
  {
    if token == [] {
      assert token + rest == rest;
    } else {
      assert (token + rest)[1..] == token[1..] + rest;
      SkipWithin(token[1..], rest);
    }
  }

  lemma FoldParts(a: Str, b: Str, cs: bool)
    requires a != [] && b != []
    ensures Fold(a, cs) == Fold(b, cs) <==> FoldChar(a[0], cs) == FoldChar(b[0], cs) && Fold(a[1..], cs) == Fold(b[1..], cs)
  {
    assert Fold(a, cs) == [FoldChar(a[0], cs)] + Fold(a[1..], cs);
    assert Fold(b, cs) == [FoldChar(b[0], cs)] + Fold(b[1..], cs);
    assert Fold(a, cs)[1..] == Fold(a[1..], cs) && Fold(b, cs)[1..] == Fold(b[1..], cs);
  }

  /** Against an escaped name, `compare_pointers` is the comparison of the names. */
  lemma {:induction false} CompareEncoded(name: Str, key: Str, rest: Str, cs: bool)
    requires EndsToken(rest)
    ensures ComparePointers(name, Encode(key) + rest, cs) <==> Fold(name, cs) == Fold(key, cs)
    decreases |name|
  {
    if key == [] {
      assert Encode(key) + rest == rest;
    } else {
      var tail := Encode(key[1..]) + rest;
      assert Encode(key) + rest == EncodeChar(key[0]) + tail;
      if name != [] {
        CompareEncoded(name[1..], key[1..], rest, cs);
        FoldParts(name, key, cs);
        if key[0] == SLASH || key[0] == TILDE {
          assert (EncodeChar(key[0]) + tail)[2..] == tail;
        } else {
          assert (EncodeChar(key[0]) + tail)[1..] == tail;
        }
      }
    }
  }

  // ---- the location that a pointer names ----

  /** The token up to the next slash, un-escaped as section 4 of RFC 6901 says. */
  function FirstToken(s: Str): Str {
    if s == [] || s[0] == '/' as int then []
    else if s[0] == '~' as int && |s| > 1 && s[1] == '1' as int then ['/' as int] + FirstToken(s[2..])
    else if s[0] == '~' as int && |s| > 1 && s[1] == '0' as int then ['~' as int] + FirstToken(s[2..])
    else [s[0]] + FirstToken(s[1..])
  }

  /** The tokens of a pointer (section 3 of RFC 6901). */
  function TokensOf(s: Str): seq<Str>
    decreases |s|
  {
    if s == [] then []
    else
      SkipShortens(s[1..]);
      [FirstToken(s[1..])] + TokensOf(SkipToken(s[1..]))
  }

  lemma {:induction false} SkipShortens(s: Str)
    ensures |SkipToken(s)| <= |s|
  {
    if s != [] && s[0] != SLASH { SkipShortens(s[1..]); }
  }

  lemma {:induction false} FirstTokenIs(k: Str, rest: Str)
    requires EndsToken(rest)
    ensures FirstToken(Encode(k) + rest) == k
  {
    if k == [] {
      assert Encode(k) + rest == rest;
    } else {
      var e, more := EncodeChar(k[0]), Encode(k[1..]) + rest;
      FirstTokenIs(k[1..], rest);
      assert Encode(k) + rest == e + more;
      assert (e + more)[|e|..] == more;
      if |e| == 2 { assert (e + more)[1] == e[1]; }
    }
  }

  /** Up to the next slash, every tilde is followed by 0 or 1. */
  predicate EscapesValid(s: Str) {
    s == [] || s[0] == '/' as int ||
    if s[0] == '~' as int then |s| > 1 && (s[1] == '0' as int || s[1] == '1' as int) && EscapesValid(s[2..]) else EscapesValid(s[1..])
  }

  /** On every pointer, the comparison answers whether its first token is well escaped and names the same. */
  lemma {:induction false} ComparePointersExact(name: Str, pointer: Str, cs: bool)
    ensures ComparePointers(name, pointer, cs) <==> EscapesValid(pointer) && Fold(name, cs) == Fold(FirstToken(pointer), cs)
    decreases |name|
  {
    if name != [] && !EndsToken(pointer) {
      var escaped := pointer[0] == TILDE;
      if escaped {
        if |pointer| > 1 { ComparePointersExact(name[1..], pointer[2..], cs); }
      } else {
        ComparePointersExact(name[1..], pointer[1..], cs);
      }
      FoldHead(name, FirstToken(pointer), cs);
    }
  }

  lemma FoldHead(a: Str, b: Str, cs: bool)
    requires a != []
    ensures Fold(a, cs) == Fold(b, cs) <==> b != [] && FoldChar(a[0], cs) == FoldChar(b[0], cs) && Fold(a[1..], cs) == Fold(b[1..], cs)
  {
    if b != [] { FoldParts(a, b, cs); }
    assert |Fold(a, cs)| == |a| && |Fold(b, cs)| == |b|;
  }

  // ---- array indices ----

  /** `sprintf("%lu")` */
  function Decimal(n: nat): Str {
    if n < 10 then [ZERO + n] else Decimal(n / 10) + [ZERO + n % 10]
  }

  /** The digit loop of `decode_array_index_from_pointer`: its upper bound looks at the first character only. */
  function DigitRun(p: Str, i: nat, acc: nat): (nat, nat)
    requires i <= |p|
    decreases |p| - i
  {
    if At(p, i) >= ZERO && At(p, 0) <= NINE
    then DigitRun(p, i + 1, (10 * acc + (At(p, i) - ZERO)) % SIZE_VALUES)
    else (i, acc)
  }

  /** `decode_array_index_from_pointer` */
  function DecodeIndex(p: Str): Option<nat> {
    if At(p, 0) == ZERO && At(p, 1) != 0 && At(p, 1) != SLASH then None
    else
      var (i, index) := DigitRun(p, 0, 0);
      if At(p, i) != 0 && At(p, i) != SLASH then None else Some(index)
  }

  /** The loop itself. */
  method DecodeArrayIndex(p: Str) returns (r: Option<nat>)
    ensures r == DecodeIndex(p)
  {
    if At(p, 0) == ZERO && At(p, 1) != 0 && At(p, 1) != SLASH { return None; }
    var index, position := 0, 0;
    while At(p, position) >= ZERO && At(p, 0) <= NINE
      invariant 0 <= index && position <= |p| && DigitRun(p, position, index) == DigitRun(p, 0, 0)
      decreases |p| - position
    {
      index := (10 * index + (At(p, position) - ZERO)) % SIZE_VALUES;
      position := position + 1;
    }
    r := if At(p, position) != 0 && At(p, position) != SLASH then None else Some(index);
  }

  predicate IsDigit(c: byte) {
    ZERO <= c <= NINE
  }

  predicate AllDigits(s: Str) {
    forall i | 0 <= i < |s| :: IsDigit(s[i])
  }

  /** The number a run of digits spells. */
  function DecimalValue(s: Str): nat
    requires AllDigits(s)
  {
    if s == [] then 0 else 10 * DecimalValue(s[..|s| - 1]) + (s[|s| - 1] - ZERO)
  }

  /** The array index of section 4 of RFC 6901: digits without a leading zero. */
  function RfcIndex(token: Str): Option<nat> {
    if token != [] && AllDigits(token) && (token[0] != ZERO || |token| == 1)
    then Some(DecimalValue(token)) else None
  }

  /**
   * Whether the library reads a token as the RFC does. It does not for the empty token, for a
   * token that begins with a digit above zero and goes on with characters above '9', and for an
   * index that does not fit `size_t`.
   */
  predicate IndexAsRfc(token: Str) {
    && token != []
    && (IsDigit(token[0]) && token[0] != ZERO && (forall i | 0 <= i < |token| :: token[i] >= ZERO) ==> AllDigits(token))
    && (AllDigits(token) && token[0] != ZERO ==> DecimalValue(token) < SIZE_VALUES)
  }

  lemma {:induction false} DigitRunStops(token: Str, rest: Str, i: nat, acc: nat)
    requires SLASH !in token && EndsToken(rest) && i <= |token|
    ensures DigitRun(token + rest, i, acc) == DigitRun(token, i, acc)
    decreases |token| - i
  {
    var p := token + rest;
    if i < |token| {
      DigitRunStops(token, rest, i + 1, (10 * acc + (token[i] - ZERO)) % SIZE_VALUES);
    }
  }

  /** Only the token itself matters to the decoded index. */
  lemma IndexOfToken(token: Str, rest: Str)
    requires SLASH !in token && EndsToken(rest)
    ensures DecodeIndex(token + rest) == DecodeIndex(token)
  {
    DigitRunStops(token, rest, 0, 0);
    RunEnds(token, 0, 0);
  }

  /** The loop stops at the first character below '0', or at once. */
  lemma {:induction false} RunEnds(p: Str, i: nat, acc: nat)
    requires i <= |p|
    ensures var (j, _) := DigitRun(p, i, acc);
            && i <= j <= |p|
            && (j < |p| ==> p[j] < ZERO || At(p, 0) > NINE)
            && (j > i ==> At(p, 0) <= NINE)
            && forall k | i <= k < j :: p[k] >= ZERO
    decreases |p| - i
  {
    if At(p, i) >= ZERO && At(p, 0) <= NINE {
      RunEnds(p, i + 1, (10 * acc + (At(p, i) - ZERO)) % SIZE_VALUES);
    }
  }

  lemma {:induction false} RunOfDigits(p: Str, i: nat)
    requires AllDigits(p) && i <= |p|
    ensures AllDigits(p[..i]) && DigitRun(p, i, DecimalValue(p[..i]) % SIZE_VALUES) == (|p|, DecimalValue(p) % SIZE_VALUES)
    decreases |p| - i
  {
    if i < |p| {
      RunOfDigits(p, i + 1);
      assert p[..i + 1][..i] == p[..i];
      StepMod(DecimalValue(p[..i]), p[i] - ZERO);
    } else {
      assert p[..i] == p;
    }
  }

  lemma StepMod(n: nat, d: nat)
    ensures (10 * (n % SIZE_VALUES) + d) % SIZE_VALUES == (10 * n + d) % SIZE_VALUES
  {
    var q := n / SIZE_VALUES;
    assert 10 * n + d == 10 * (n % SIZE_VALUES) + d + (10 * q) * SIZE_VALUES;
  }

  /** The library's index decoding agrees with the RFC exactly on the tokens `IndexAsRfc` describes. */
  lemma DecodeIndexExact(token: Str)
    requires SLASH !in token
    ensures DecodeIndex(token) == RfcIndex(token) <==> IndexAsRfc(token)
  {
    RunEnds(token, 0, 0);
    if AllDigits(token) {
      RunOfDigits(token, 0);
      assert token[..0] == [];
      if token != [] && token[0] == ZERO && |token| == 1 {
        assert token[..0] == [];
      }
    }
  }

  /** Every character from '0' on is taken for a digit. */
  predicate DigitsUpwards(s: Str) {
    forall i | 0 <= i < |s| :: s[i] >= '0' as int
  }

  function UpwardsValue(s: Str): nat
    requires DigitsUpwards(s)
  {
    if s == [] then 0 else 10 * UpwardsValue(s[..|s| - 1]) + (s[|s| - 1] - '0' as int)
  }

  lemma {:induction false} RunUpwards(p: Str, i: nat)
    requires DigitsUpwards(p) && p != [] && p[0] <= '9' as int && i <= |p|
    ensures DigitsUpwards(p[..i]) && DigitRun(p, i, UpwardsValue(p[..i]) % SIZE_VALUES) == (|p|, UpwardsValue(p) % SIZE_VALUES)
    decreases |p| - i
  {
    if i < |p| {
      RunUpwards(p, i + 1);
      assert p[..i + 1][..i] == p[..i];
      StepMod(UpwardsValue(p[..i]), p[i] - ZERO);
    } else {
      assert p[..i] == p;
    }
  }

  /**
   * What the library reads any token as: the empty one as 0, and one that begins with a digit, without a leading
   * zero, and goes on with characters from '0' on as a number of 64 bits in which each of them is a digit.
   */
  lemma DecodeIndexReads(token: Str)
    requires SLASH !in token
    ensures DecodeIndex(token) ==
            if token == [] then Some(0)
            else if DigitsUpwards(token) && token[0] <= '9' as int && (token[0] != '0' as int || |token| == 1) then
              Some(UpwardsValue(token) % 0x1_0000_0000_0000_0000)
            else None
  {
    RunEnds(token, 0, 0);
    if DigitsUpwards(token) && token != [] && token[0] <= '9' as int {
      RunUpwards(token, 0);
      assert token[..0] == [];
    }
  }

  lemma {:induction false} DecimalIsIndex(n: nat)
    ensures AllDigits(Decimal(n)) && Decimal(n) != []
    ensures DecimalValue(Decimal(n)) == n
    ensures Decimal(n)[0] == ZERO ==> n == 0 && |Decimal(n)| == 1
  {
    if n < 10 {
      assert Decimal(n)[..0] == [];
    } else {
      DecimalIsIndex(n / 10);
      assert Decimal(n)[..|Decimal(n)| - 1] == Decimal(n / 10);
    }
  }

  /** An index has one spelling only. */
  lemma {:induction false} IndexIsDecimal(token: Str)
    requires RfcIndex(token).Some?
    ensures token == Decimal(RfcIndex(token).value)
  {
    var front, last := token[..|token| - 1], token[|token| - 1];
    assert IsDigit(last) && token == front + [last];
    assert DecimalValue(token) == 10 * DecimalValue(front) + (last - ZERO);
    if front != [] {
      assert front[0] == token[0] != ZERO;
      IndexIsDecimal(front);
      assert DecimalValue(front) > 0 by {
        assert Decimal(0) == [ZERO];
      }
    }
  }

  /** What `%lu` prints is read back as the same index, by the library and by the RFC. */
  lemma DecimalRoundTrip(n: nat)
    requires n < SIZE_VALUES
    ensures RfcIndex(Decimal(n)) == Some(n) && DecodeIndex(Decimal(n)) == Some(n)
    ensures SLASH !in Decimal(n) && TILDE !in Decimal(n) && Decimal(n) != [DASH]
    ensures IndexAsRfc(Decimal(n))
  {
    DecimalIsIndex(n);
    DecodeIndexExact(Decimal(n));
  }
}

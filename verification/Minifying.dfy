/** `cJSON_Minify`: white space and comments are removed from a text in place. */
module Minifying {
  import opened Bytes
  import opened Pointers
  import opened Escapes
  import opened Spellings
  import opened Parsing
  import opened Rendering

  const STAR: cchar := 42
  const RETURN: cchar := 13

  predicate Blank(c: byte) {
    c == SPACE || c == TAB || c == RETURN || c == NEWLINE
  }

  // ---- the scanner, as functions of the text and the read cursor ----

  /** The cursor after a one-line comment whose first two characters have been passed. */
  function LineEnd(t: Str, i: nat): (e: nat)
    requires i <= |t|
    ensures i <= e <= |t|
    decreases |t| - i
  {
    if i == |t| then i else if t[i] == NEWLINE then i + 1 else LineEnd(t, i + 1)
  }

  /** The cursor after a comment in stars. */
  function BlockEnd(t: Str, i: nat): (e: nat)
    requires i <= |t|
    ensures i <= e <= |t|
    decreases |t| - i
  {
    if i == |t| then i else if t[i] == STAR && At(t, i + 1) == SLASH then i + 2 else BlockEnd(t, i + 1)
  }

  /** The cursor after a string whose opening quote has been passed: a quote after any backslash does not end it. */
  function StringEnd(t: Str, i: nat): (e: nat)
    requires i <= |t|
    ensures i <= e <= |t|
    decreases |t| - i
  {
    if i == |t| then i
    else if t[i] == QUOTE then i + 1
    else if t[i] == BACKSLASH && At(t, i + 1) == QUOTE then StringEnd(t, i + 2)
    else StringEnd(t, i + 1)
  }

  /** What is still to be written when the read cursor is at `i`. */
  function MinifyFrom(t: Str, i: nat): (r: Str)
    requires i <= |t|
    ensures |r| <= |t| - i
    decreases |t| - i
  {
    if i == |t| then []
    else if Blank(t[i]) then MinifyFrom(t, i + 1)
    else if t[i] == SLASH then
      if At(t, i + 1) == SLASH then MinifyFrom(t, LineEnd(t, i + 2))
      else if At(t, i + 1) == STAR then MinifyFrom(t, BlockEnd(t, i + 2))
      else MinifyFrom(t, i + 1)
    else if t[i] == QUOTE then
      var e := StringEnd(t, i + 1);
      t[i..e] + MinifyFrom(t, e)
    else [t[i]] + MinifyFrom(t, i + 1)
  }

  function Minify(t: Str): Str {
    MinifyFrom(t, 0)
  }

  // ---- the algorithm on the array ----

  /** The array holds the text and its terminator. */
  ghost predicate Holds(a: array<byte>, t: Str)
    reads a
  {
    |t| < a.Length && a[..|t|] == t && a[|t|] == 0
  }

  /** From `j` on, the array is still as it was. */
  ghost predicate Unread(a: array<byte>, t: Str, j: nat)
    reads a
  {
    |t| < a.Length && j <= |t| && forall k | j <= k <= |t| :: a[k] == At(t, k)
  }

  method SkipOnelineComment(a: array<byte>, ghost t: Str, start: nat) returns (j: nat)
    requires Unread(a, t, start) && start + 2 <= |t|
    ensures j == LineEnd(t, start + 2)
  {
    j := start + 2;
    while a[j] != 0
      invariant start + 2 <= j <= |t| && LineEnd(t, j) == LineEnd(t, start + 2)
      decreases |t| - j
    {
      if a[j] == NEWLINE { return j + 1; }
      j := j + 1;
    }
  }

  method SkipMultilineComment(a: array<byte>, ghost t: Str, start: nat) returns (j: nat)
    requires Unread(a, t, start) && start + 2 <= |t|
    ensures j == BlockEnd(t, start + 2)
  {
    j := start + 2;
    while a[j] != 0
      invariant start + 2 <= j <= |t| && BlockEnd(t, j) == BlockEnd(t, start + 2)
      decreases |t| - j
    {
      if a[j] == STAR && a[j + 1] == SLASH { return j + 2; }
      j := j + 1;
    }
  }

  /** One character is copied down. */
  method Copy(a: array<byte>, ghost t: Str, input: nat, output: nat)
    requires Unread(a, t, input) && input < |t| && output <= input
    modifies a
    ensures a[..output + 1] == old(a[..output]) + [t[input]]
    ensures Unread(a, t, input + 1)
  {
    a[output] := a[input];
    assert a[..output + 1] == a[..output] + [a[output]];
  }

  lemma Extend(t: Str, i: nat, j: nat, base: seq<byte>)
    requires i <= j < |t|
    ensures (base + t[i..j]) + [t[j]] == base + t[i..j + 1]
  {
  }

  /** One turn of the copying loop: a character, or an escaped quote. */
  method StringStep(a: array<byte>, ghost t: Str, ghost input: nat, i0: nat, o0: nat, ghost base: seq<byte>) returns (closed: bool, i: nat, o: nat)
    requires Unread(a, t, i0) && input <= i0 < |t| && o0 <= i0 && a[..o0] == base + t[input..i0]
    modifies a
    ensures i0 < i <= |t| && o - o0 == i - i0 && Unread(a, t, i) && a[..o] == base + t[input..i]
    ensures StringEnd(t, i0) == if closed then i else StringEnd(t, i)
  {
    hide StringEnd;
    StringEndStep(t, i0);
    var c, next := a[i0], a[i0 + 1];
    Copy(a, t, i0, o0);
    Extend(t, input, i0, base);
    closed, i, o := c == QUOTE, i0 + 1, o0 + 1;
    if c == BACKSLASH && next == QUOTE {
      Copy(a, t, i, o);
      Extend(t, input, i, base);
      i, o := i + 1, o + 1;
    }
  }

  lemma StringEndStep(t: Str, i: nat)
    requires i < |t|
    ensures StringEnd(t, i) ==
            if t[i] == QUOTE then i + 1 else if t[i] == BACKSLASH && At(t, i + 1) == QUOTE then StringEnd(t, i + 2) else StringEnd(t, i + 1)
  {
  }

  /** Copies one string; the write cursor stays at or before the read cursor, so nothing unread is overwritten. */
  method MinifyString(a: array<byte>, ghost t: Str, input: nat, output: nat) returns (i: nat, o: nat)
    requires Unread(a, t, input) && input < |t| && t[input] == QUOTE && output <= input
    modifies a
    ensures i == StringEnd(t, input + 1) && o == output + (i - input) && o <= i
    ensures a[..o] == old(a[..output]) + t[input..i]
    ensures Unread(a, t, i)
  {
    ghost var base := a[..output];
    Copy(a, t, input, output);
    i, o := input + 1, output + 1;
    var closed := false;
    while !closed && a[i] != 0
      invariant input + 1 <= i <= |t| && o == output + (i - input)
      invariant StringEnd(t, input + 1) == if closed then i else StringEnd(t, i)
      invariant a[..o] == base + t[input..i]
      invariant Unread(a, t, i)
      decreases |t| - i
    {
      closed, i, o := StringStep(a, t, input, i, o, base);
    }
  }

  /** The array ends up holding the minified text. */
  method MinifyInPlace(a: array<byte>, ghost t: Str)
    requires Holds(a, t)
    modifies a
    ensures Holds(a, Minify(t))
  {
    var json: nat, into: nat := 0, 0;
    while a[json] != 0
      invariant into <= json <= |t|
      invariant Unread(a, t, json)
      invariant a[..into] + MinifyFrom(t, json) == Minify(t)
      decreases |t| - json
    {
      json, into := Step(a, t, json, into);
    }
    a[into] := 0;
  }

  /** One turn of the loop. */
  method Step(a: array<byte>, ghost t: Str, json: nat, into: nat) returns (j: nat, o: nat)
    requires Unread(a, t, json) && into <= json < |t|
    modifies a
    ensures json < j <= |t| && o <= j && Unread(a, t, j)
    ensures a[..o] + MinifyFrom(t, j) == old(a[..into]) + MinifyFrom(t, json)
  {
    hide LineEnd, BlockEnd, StringEnd;
    var c := a[json];
    if c == SPACE || c == TAB || c == RETURN || c == NEWLINE {
      j, o := json + 1, into;
    } else if c == SLASH {
      j := SkipSlash(a, t, json);
      o := into;
    } else {
      ghost var base := a[..into];
      if c == QUOTE {
        j, o := MinifyString(a, t, json, into);
      } else {
        Copy(a, t, json, into);
        j, o := json + 1, into + 1;
      }
      Moved(t, json, j, base);
    }
  }

  lemma Moved(t: Str, i: nat, j: nat, base: seq<byte>)
    requires i < |t| && !Blank(t[i]) && t[i] != SLASH
    requires j == if t[i] == QUOTE then StringEnd(t, i + 1) else i + 1
    ensures base + MinifyFrom(t, i) == (base + t[i..j]) + MinifyFrom(t, j)
    ensures t[i] != QUOTE ==> t[i..j] == [t[i]]
  {
    hide StringEnd;
    assert MinifyFrom(t, i) == t[i..j] + MinifyFrom(t, j);
  }

  method SkipSlash(a: array<byte>, ghost t: Str, json: nat) returns (j: nat)
    requires Unread(a, t, json) && json < |t| && t[json] == SLASH
    ensures json < j <= |t| && MinifyFrom(t, j) == MinifyFrom(t, json)
  {
    hide LineEnd, BlockEnd, StringEnd;
    if a[json + 1] == SLASH {
      j := SkipOnelineComment(a, t, json);
    } else if a[json + 1] == STAR {
      j := SkipMultilineComment(a, t, json);
    } else {
      j := json + 1;
    }
  }
}

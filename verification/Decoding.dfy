/** Un-escaping of a pointer token in its own buffer, and the keys that survive it. */
module Decoding {
  import opened Bytes
  import opened Pointers

  /** A buffer that holds a terminated string. */
  predicate Terminated(buf: seq<byte>) {
    buf != [] && buf[|buf| - 1] == 0
  }

  /** The loop of `decode_pointer_inplace`: plain characters are not moved, and `~1` writes one place too far. */
  function DecodeLoop(buf: seq<byte>, to: nat, from: nat): (r: seq<byte>)
    requires Terminated(buf) && to <= from < |buf|
    ensures |r| == |buf|
    decreases |buf| - from
  {
    if buf[from] == 0 then buf[to := 0]
    else if buf[from] == TILDE then
      if buf[from + 1] == ZERO then DecodeLoop(buf[to := TILDE], to + 1, from + 2)
      else if buf[from + 1] == ONE then DecodeLoop(buf[to + 1 := SLASH], to + 1, from + 2)
      else buf
    else DecodeLoop(buf, to + 1, from + 1)
  }

  function WithTerminator(s: Str): (buf: seq<byte>)
    ensures Terminated(buf)
  {
    var bytes: seq<byte> := s;
    bytes + [0]
  }

  /** What `decode_pointer_inplace` leaves of a token. */
  function DecodeToken(token: Str): Str {
    CString(DecodeLoop(WithTerminator(token), 0, 0))
  }

  /** The loop itself, on the buffer it overwrites. */
  method DecodePointerInPlace(buf: array<byte>)
    requires Terminated(buf[..])
    modifies buf
    ensures buf[..] == DecodeLoop(old(buf[..]), 0, 0)
  {
    var to, from := 0, 0;
    ghost var was: seq<byte> := buf[..];
    while buf[from] != 0
      invariant to <= from < buf.Length && Terminated(buf[..])
      invariant DecodeLoop(buf[..], to, from) == DecodeLoop(was, 0, 0)
      decreases buf.Length - from
    {
      ghost var now: seq<byte> := buf[..];
      if buf[from] == TILDE {
        if buf[from + 1] == ZERO {
          buf[to] := TILDE;
          assert buf[..] == now[to := TILDE];
        } else if buf[from + 1] == ONE {
          buf[to + 1] := SLASH;
          assert buf[..] == now[to + 1 := SLASH];
        } else {
          return;
        }
        from := from + 1;
      }
      to, from := to + 1, from + 1;
    }
    ghost var now: seq<byte> := buf[..];
    buf[to] := 0;
    assert buf[..] == now[to := 0];
  }

  /**
   * The keys that come back from `decode_pointer_inplace`: no slash, and each character that is
   * not a tilde already stands at its place in the escaped text.
   */
  predicate Stable(key: Str) {
    && SLASH !in key
    && forall i | 0 <= i < |key| && key[i] != TILDE :: At(Encode(key), i) == key[i]
  }

  /** An escape other than `~0` and `~1` ends the decoding; if it is the first, the token stays as it is. */
  lemma BadEscapeStays(token: Str, i: nat)
    requires i < |token| && TILDE !in token[..i] && token[i] == TILDE && At(token, i + 1) != ZERO && At(token, i + 1) != ONE
    ensures DecodeToken(token) == token
  {
    BadEscapeStops(token, 0, i);
    CStringPrefix(WithTerminator(token), |token|);
  }

  lemma {:induction false} BadEscapeStops(token: Str, from: nat, i: nat)
    requires from <= i < |token| && TILDE !in token[..i] && token[i] == TILDE && At(token, i + 1) != ZERO && At(token, i + 1) != ONE
    ensures DecodeLoop(WithTerminator(token), from, from) == WithTerminator(token)
    decreases i - from
  {
    var buf := WithTerminator(token);
    assert buf[from] == token[from] && (i + 1 < |buf| ==> buf[i + 1] == At(token, i + 1));
    if from < i {
      assert token[from] in token[..i];
      BadEscapeStops(token, from + 1, i);
    }
  }

  lemma PlainIsStable(key: Str)
    requires SLASH !in key && TILDE !in key
    ensures Stable(key)
  {
    EncodePlain(key);
  }

  /** The character that ends up at place `i` when the escaped `key` is decoded. */
  function Decoded(key: Str, i: nat): byte
    requires i < |key|
  {
    if key[i] == TILDE then TILDE else if i > 0 && key[i - 1] == SLASH then SLASH else At(Encode(key), i)
  }

  /** The buffer after the first `u` characters of `key` have been decoded. */
  ghost predicate Progress(buf: seq<byte>, key: Str, u: nat) {
    && u <= |key| <= |Encode(key)| == |buf| - 1
    && (forall i | 0 <= i < u :: buf[i] == Decoded(key, i))
    && buf[u] == (if u > 0 && key[u - 1] == SLASH then SLASH else At(Encode(key), u))
    && forall i | u < i < |buf| :: buf[i] == At(Encode(key), i)
  }

  /** With a slash just before, at least one escape lies behind, so reading is ahead of writing. */
  lemma SlashLag(key: Str, u: nat)
    requires 0 < u <= |key| && key[u - 1] == SLASH
    ensures |Encode(key[..u])| > u
  {
    SplitEncoding(key, u - 1);
  }

  /** The buffer still holds the escape of the next character where the loop reads it. */
  lemma NextEscape(buf: seq<byte>, key: Str, u: nat)
    requires u < |key| && Progress(buf, key, u)
    ensures var from, c := |Encode(key[..u])|, EncodeChar(key[u]);
            u <= from && from + |c| < |buf| && forall i | 0 <= i < |c| :: buf[from + i] == c[i]
    ensures |Encode(key[..u + 1])| == |Encode(key[..u])| + |EncodeChar(key[u])|
  {
    hide Encode;
    var from, c := |Encode(key[..u])|, EncodeChar(key[u]);
    SplitEncoding(key, u);
    if u > 0 && key[u - 1] == SLASH { SlashLag(key, u); }
    forall i | 0 <= i < |c|
      ensures buf[from + i] == c[i]
    {
      assert Encode(key)[from + i] == Encode(key[..u + 1])[from + i] == c[i];
    }
  }

  /** The buffer after one more character. */
  function Stepped(buf: seq<byte>, c: cchar, u: nat): (r: seq<byte>)
    requires u + 1 < |buf|
    ensures |r| == |buf|
  {
    if c == TILDE then buf[u := TILDE] else if c == SLASH then buf[u + 1 := SLASH] else buf
  }

  lemma StepProgress(buf: seq<byte>, key: Str, u: nat)
    requires u < |key| && Progress(buf, key, u)
    ensures Progress(Stepped(buf, key[u], u), key, u + 1)
  {
  }

  lemma LoopStep(buf: seq<byte>, c: cchar, to: nat, from: nat)
    requires Terminated(buf) && to <= from && from + |EncodeChar(c)| < |buf|
    requires buf[from] == EncodeChar(c)[0]
    requires |EncodeChar(c)| == 2 ==> buf[from + 1] == EncodeChar(c)[1]
    ensures Terminated(Stepped(buf, c, to))
    ensures DecodeLoop(buf, to, from) == DecodeLoop(Stepped(buf, c, to), to + 1, from + |EncodeChar(c)|)
  {
  }

  /** The finished buffer: the decoded characters, then a terminator. */
  ghost predicate Finished(r: seq<byte>, key: Str) {
    |r| > |key| && r[|key|] == 0 && forall i | 0 <= i < |key| :: r[i] == Decoded(key, i)
  }

  lemma DecodeEnd(buf: seq<byte>, key: Str)
    requires Progress(buf, key, |key|) && Terminated(buf)
    ensures Finished(DecodeLoop(buf, |key|, |Encode(key)|), key)
  {
    assert key[..|key|] == key;
    if key != [] && key[|key| - 1] == SLASH { SlashLag(key, |key|); }
  }

  lemma ProgressBounds(buf: seq<byte>, key: Str, u: nat)
    requires Progress(buf, key, u)
    ensures u <= |key| <= |Encode(key)| == |buf| - 1
  {
  }

  lemma {:induction false} DecodeProgress(buf: seq<byte>, key: Str, u: nat)
    requires Progress(buf, key, u) && Terminated(buf)
    requires u <= |Encode(key[..u])| < |buf|
    ensures Finished(DecodeLoop(buf, u, |Encode(key[..u])|), key)
    decreases |key| - u
  {
    hide Finished, DecodeLoop, Progress, Encode, Stepped;
    if u == |key| {
      DecodeEnd(buf, key);
      assert key[..u] == key;
    } else {
      ProgressBounds(buf, key, u);
      NextEscape(buf, key, u);
      StepProgress(buf, key, u);
      assert buf[|Encode(key[..u])| + 0] == EncodeChar(key[u])[0];
      LoopStep(buf, key[u], u, |Encode(key[..u])|);
      DecodeProgress(Stepped(buf, key[u], u), key, u + 1);
    }
  }

  lemma {:induction false} CStringPrefix(buf: seq<byte>, n: nat)
    requires n < |buf| && buf[n] == 0 && forall i | 0 <= i < n :: buf[i] != 0
    ensures CString(buf) == buf[..n]
  {
    if n > 0 {
      CStringPrefix(buf[1..], n - 1);
    }
  }

  /** Escaping a key and decoding it in place gives the key back exactly for the stable keys. */
  lemma DecodeExact(key: Str)
    ensures DecodeToken(Encode(key)) == key <==> Stable(key)
  {
    var buf := WithTerminator(Encode(key));
    EncodeNoSlash(key);
    assert key[..0] == [];
    DecodeProgress(buf, key, 0);
    var r := DecodeLoop(buf, 0, 0);
    CStringPrefix(r, |key|);
    if SLASH in key {
      var i := FirstSlash(key, 0);
      assert At(Encode(key), i) in Encode(key);
      assert r[i] != SLASH;
    }
  }

  lemma FirstSlash(key: Str, from: nat) returns (i: nat)
    requires from <= |key| && SLASH in key[from..]
    ensures from <= i < |key| && key[i] == SLASH && SLASH !in key[from..i]
    decreases |key| - from
  {
    if key[from] == SLASH {
      i := from;
    } else {
      i := FirstSlash(key, from + 1);
      assert key[from..i] == [key[from]] + key[from + 1..i];
    }
  }

  // ---- a name that in-place decoding changes, changes by more than letter case ----

  predicate TildeOrZero(c: byte) {
    c == TILDE || c == ZERO
  }

  /** The places of an escaped text that belong to one character of the name. */
  lemma {:induction false} SourceOf(key: Str, i: nat) returns (j: nat)
    requires i < |Encode(key)|
    ensures j < |key| && |Encode(key[..j])| <= i < |Encode(key[..j + 1])|
    ensures Encode(key)[i] in EncodeChar(key[j])
    ensures i == |Encode(key[..j])| ==> Encode(key)[i] == EncodeChar(key[j])[0]
  {
    var n := |key| - 1;
    SplitEncoding(key, n);
    assert key[..n + 1] == key;
    if i >= |Encode(key[..n])| {
      j := n;
    } else {
      j := SourceOf(key[..n], i);
      assert key[..n][..j] == key[..j] && key[..n][..j + 1] == key[..j + 1];
    }
  }

  lemma {:induction false} EncodedGrows(key: Str)
    requires TILDE in key
    ensures |Encode(key)| > |key|
  {
    EncodeNoSlash(key[1..]);
    if key[0] != TILDE {
      assert TILDE in key[1..];
      EncodedGrows(key[1..]);
    }
  }

  /** Behind a tilde, a name whose decoded form folds to the same text consists of tildes and zeros. */
  lemma {:induction false} BehindTilde(key: Str, p: nat, i: nat)
    requires SLASH !in key && p < i < |key| && key[p] == TILDE && TILDE !in key[..p]
    requires forall q | 0 <= q <= i :: ToLowerByte(Decoded(key, q)) == ToLowerByte(key[q])
    ensures TildeOrZero(key[i])
    decreases i
  {
    if key[i] != TILDE {
      EncodeNoSlash(key);
      var j := SourceOf(key, i);
      if j > p {
        assert key[..j][p] == TILDE;
        EncodedGrows(key[..j]);
        BehindTilde(key, p, j);
      } else if j == p {
        EncodePlain(key[..p]);
      } else {
        EncodePlain(key[..j + 1]);
      }
    }
  }

  function ToLowerByte(c: byte): byte {
    if 65 <= c <= 90 then c + 32 else c
  }

  /** So in neither case mode does any other name come back as itself. */
  lemma DecodedFolds(key: Str, cs: bool)
    ensures Fold(DecodeToken(Encode(key)), cs) == Fold(key, cs) <==> Stable(key)
  {
    DecodeExact(key);
    if Fold(DecodeToken(Encode(key)), cs) == Fold(key, cs) { FoldsStable(key, cs); }
  }

  lemma FoldsStable(key: Str, cs: bool)
    requires Fold(DecodeToken(Encode(key)), cs) == Fold(key, cs)
    ensures Stable(key)
  {
    var d := DecodedIs(key);
    forall q | 0 <= q < |key|
      ensures ToLowerByte(Decoded(key, q)) == ToLowerByte(key[q])
    {
      assert Fold(d, cs)[q] == Fold(key, cs)[q];
    }
    if SLASH in key {
      var i := LostSlash(key);
    }
    forall i | 0 <= i < |key| && key[i] != TILDE
      ensures At(Encode(key), i) == key[i]
    {
      if TILDE in key[..i] {
        var p := FirstTilde(key, i);
        BehindTilde(key, p, i);
      } else {
        EncodePlain(key[..i]);
        SplitEncoding(key, i);
        assert Encode(key)[i] == Encode(key[..i + 1])[i];
      }
    }
  }

  /** The first slash of a name is lost. */
  lemma LostSlash(key: Str) returns (i: nat)
    requires SLASH in key
    ensures i < |key| && key[i] == SLASH && Decoded(key, i) != SLASH
  {
    EncodeNoSlash(key);
    i := FirstSlash(key, 0);
    assert At(Encode(key), i) in Encode(key);
  }

  lemma FirstTilde(key: Str, n: nat) returns (p: nat)
    requires n <= |key| && TILDE in key[..n]
    ensures p < n && key[p] == TILDE && TILDE !in key[..p]
  {
    p := 0;
    while key[p] != TILDE
      invariant p < n && TILDE !in key[..p] && TILDE in key[p..n]
      decreases n - p
    {
      p := p + 1;
    }
  }

  /** The decoded token, character by character. */
  lemma DecodedIs(key: Str) returns (d: Str)
    ensures d == DecodeToken(Encode(key)) && |d| == |key|
    ensures forall i | 0 <= i < |key| :: d[i] == Decoded(key, i)
  {
    d := DecodeToken(Encode(key));
    var buf := WithTerminator(Encode(key));
    EncodeNoSlash(key);
    assert key[..0] == [];
    DecodeProgress(buf, key, 0);
    CStringPrefix(DecodeLoop(buf, 0, 0), |key|);
  }
}

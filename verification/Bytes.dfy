/** Bytes, NUL-terminated strings and the two string comparisons the libraries use. */
module Bytes {
  type byte = b: int | 0 <= b < 256
  /** A character of a C string: any byte but the terminator. */
  type cchar = b: int | 0 < b < 256 witness 1
  /** The contents of a C string, without its terminator. */
  type Str = seq<cchar>

  /** The codes of the characters of a text. */
  function Ascii(s: string): seq<int> {
    seq(|s|, k requires 0 <= k < |s| => s[k] as int)
  }

  /** The C string at the start of a buffer. */
  function CString(buf: seq<byte>): Str {
    if buf == [] || buf[0] == 0 then [] else [buf[0]] + CString(buf[1..])
  }

  datatype Option<+T> = None | Some(value: T)

  /** `tolower` in the C locale. */
  function ToLower(c: cchar): cchar {
    if 65 <= c <= 90 then c + 32 else c
  }

  function FoldChar(c: cchar, cs: bool): cchar {
    if cs then c else ToLower(c)
  }

  /** The form in which a key is compared: itself, or in lower case. */
  function Fold(s: Str, cs: bool): (r: Str)
    ensures |r| == |s|
    ensures forall i | 0 <= i < |s| :: r[i] == FoldChar(s[i], cs)
  {
    if cs then s else seq(|s|, i requires 0 <= i < |s| => ToLower(s[i]))
  }

  /** The sign of `strcmp`. */
  function Compare(a: Str, b: Str): int {
    if a == [] then (if b == [] then 0 else -1)
    else if b == [] then 1
    else if a[0] != b[0] then (if a[0] < b[0] then -1 else 1)
    else Compare(a[1..], b[1..])
  }

  /** The sign of `compare_strings` on two strings that are not NULL. */
  function CompareStrings(a: Str, b: Str, cs: bool): int {
    Compare(Fold(a, cs), Fold(b, cs))
  }

  lemma {:induction false} CompareEqual(a: Str, b: Str)
    ensures Compare(a, b) == 0 <==> a == b
    ensures Compare(a, b) in {-1, 0, 1}
  {
    if a != [] && b != [] && a[0] == b[0] {
      CompareEqual(a[1..], b[1..]);
      assert a == [a[0]] + a[1..] && b == [b[0]] + b[1..];
    }
  }

  lemma {:induction false} CompareAntisymmetric(a: Str, b: Str)
    ensures Compare(a, b) == -Compare(b, a)
  {
    if a != [] && b != [] && a[0] == b[0] {
      CompareAntisymmetric(a[1..], b[1..]);
    }
  }

  lemma {:induction false} CompareTransitive(a: Str, b: Str, c: Str)
    requires Compare(a, b) <= 0 && Compare(b, c) <= 0
    ensures Compare(a, c) <= 0
    ensures Compare(a, b) < 0 || Compare(b, c) < 0 ==> Compare(a, c) < 0
  {
    if a != [] && b != [] && c != [] && a[0] == b[0] == c[0] {
      CompareTransitive(a[1..], b[1..], c[1..]);
    }
  }

  /** Two strings fold to the same string exactly when `compare_strings` finds them equal. */
  lemma CompareStringsEqual(a: Str, b: Str, cs: bool)
    ensures CompareStrings(a, b, cs) == 0 <==> Fold(a, cs) == Fold(b, cs)
  {
    CompareEqual(Fold(a, cs), Fold(b, cs));
  }
}

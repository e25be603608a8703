/**
 * The operations of section 4 of RFC 6902 on values, by recursion from the root along the
 * reference tokens of section 4 of RFC 6901. Names are compared in the case mode of the caller.
 */
module Rfc6902 {
  import opened Bytes
  import opened Json
  import opened Pointers

  /** Reference tokens, unescaped. */
  type Path = seq<Str>

  datatype Edit = Add(value: Value) | Remove | Replace(value: Value)

  /** The value a token refers to. */
  function ChildOf(v: Value, token: Str, cs: bool): Option<Value> {
    match v
    case VArray(items) =>
      (match RfcIndex(token)
       case Some(i) => if i < |items| then Some(items[i]) else None
       case None => None)
    case VObject(m) => if Fold(token, cs) in m then Some(m[Fold(token, cs)]) else None
    case _ => None
  }

  function PutChild(v: Value, token: Str, x: Value, cs: bool): Value
    requires ChildOf(v, token, cs).Some?
  {
    match v
    case VArray(items) => VArray(items[RfcIndex(token).value := x])
    case VObject(m) => VObject(m[Fold(token, cs) := x])
  }

  /** The value a pointer refers to. */
  function Get(v: Value, path: Path, cs: bool): Option<Value> {
    if path == [] then Some(v)
    else
      match ChildOf(v, path[0], cs)
      case None => None
      case Some(c) => Get(c, path[1..], cs)
  }

  /** One operation on the value that holds the target location: sections 4.1, 4.2 and 4.3. */
  function EditHere(v: Value, token: Str, e: Edit, cs: bool): Option<Value> {
    match (v, e)
    case (VArray(items), Add(x)) =>
      if token == [DASH] then Some(VArray(items + [x]))
      else
        (match RfcIndex(token)
         case Some(i) => if i <= |items| then Some(VArray(Inserted(items, i, x))) else None
         case None => None)
    case (VObject(m), Add(x)) => Some(VObject(m[Fold(token, cs) := x]))
    case (VArray(items), Remove) =>
      if ChildOf(v, token, cs).Some? then Some(VArray(Without(items, RfcIndex(token).value))) else None
    case (VObject(m), Remove) =>
      if ChildOf(v, token, cs).Some? then Some(VObject(m - {Fold(token, cs)})) else None
    case (_, Replace(x)) =>
      if ChildOf(v, token, cs).Some? then Some(PutChild(v, token, x, cs)) else None
    case (_, _) => None
  }

  /** One operation on a document; None where the RFC makes it an error. */
  function Apply(v: Value, path: Path, e: Edit, cs: bool): Option<Value>
    requires path != []
  {
    if |path| == 1 then EditHere(v, path[0], e, cs)
    else
      match ChildOf(v, path[0], cs)
      case None => None
      case Some(c) =>
        match Apply(c, path[1..], e, cs)
        case None => None
        case Some(c') => Some(PutChild(v, path[0], c', cs))
  }

  /** The document with the value at an existing location put in place of the old one. */
  function PutPath(v: Value, path: Path, x: Value, cs: bool): Value
    requires Get(v, path, cs).Some?
  {
    if path == [] then x
    else PutChild(v, path[0], PutPath(ChildOf(v, path[0], cs).value, path[1..], x, cs), cs)
  }

  /** Section 4.4: remove at one location, then add the removed value at the other. */
  function RemoveThenAdd(v: Value, from: Path, path: Path, cs: bool): Option<Value>
    requires from != [] && path != []
  {
    match (Get(v, from, cs), Apply(v, from, Remove, cs))
    case (Some(x), Some(v')) => Apply(v', path, Add(x), cs)
    case (_, _) => None
  }

  // ---- facts about single children ----

  lemma ChildAfterPut(v: Value, token: Str, x: Value, cs: bool)
    requires ChildOf(v, token, cs).Some?
    ensures ChildOf(PutChild(v, token, x, cs), token, cs) == Some(x)
    ensures forall y :: PutChild(PutChild(v, token, x, cs), token, y, cs) == PutChild(v, token, y, cs)
  {
  }

  // ---- an operation below a location acts on that location only ----

  /** The frame of an operation: under a prefix it is the operation on the value there, put back. */
  lemma {:induction false} ApplyUnder(v: Value, p: Path, q: Path, e: Edit, cs: bool)
    requires q != [] && Get(v, p, cs).Some?
    ensures var here := Apply(Get(v, p, cs).value, q, e, cs);
            Apply(v, p + q, e, cs) == if here.Some? then Some(PutPath(v, p, here.value, cs)) else None
  {
    if p == [] {
      assert p + q == q;
    } else {
      assert (p + q)[1..] == p[1..] + q;
      ApplyUnder(ChildOf(v, p[0], cs).value, p[1..], q, e, cs);
    }
  }

  lemma {:induction false} GetAfterPut(v: Value, p: Path, x: Value, cs: bool)
    requires Get(v, p, cs).Some?
    ensures Get(PutPath(v, p, x, cs), p, cs) == Some(x)
  {
    if p != [] {
      var c := ChildOf(v, p[0], cs).value;
      GetAfterPut(c, p[1..], x, cs);
      ChildAfterPut(v, p[0], PutPath(c, p[1..], x, cs), cs);
    }
  }

  lemma {:induction false} PutTwice(v: Value, p: Path, x: Value, y: Value, cs: bool)
    requires Get(v, p, cs).Some?
    ensures Get(PutPath(v, p, x, cs), p, cs).Some?
    ensures PutPath(PutPath(v, p, x, cs), p, y, cs) == PutPath(v, p, y, cs)
  {
    GetAfterPut(v, p, x, cs);
    if p != [] {
      var c := ChildOf(v, p[0], cs).value;
      PutTwice(c, p[1..], x, y, cs);
      ChildAfterPut(v, p[0], PutPath(c, p[1..], x, cs), cs);
    }
  }

  lemma {:induction false} GetConcat(v: Value, p: Path, q: Path, cs: bool)
    requires Get(v, p, cs).Some?
    ensures Get(v, p + q, cs) == Get(Get(v, p, cs).value, q, cs)
  {
    if p == [] {
      assert p + q == q;
    } else {
      assert (p + q)[1..] == p[1..] + q;
      GetConcat(ChildOf(v, p[0], cs).value, p[1..], q, cs);
    }
  }

  lemma {:induction false} PutConcat(v: Value, p: Path, q: Path, x: Value, cs: bool)
    requires Get(v, p, cs).Some? && Get(Get(v, p, cs).value, q, cs).Some?
    ensures Get(v, p + q, cs).Some?
    ensures PutPath(v, p + q, x, cs) == PutPath(v, p, PutPath(Get(v, p, cs).value, q, x, cs), cs)
  {
    GetConcat(v, p, q, cs);
    if p == [] {
      assert p + q == q;
    } else {
      assert (p + q)[1..] == p[1..] + q;
      PutConcat(ChildOf(v, p[0], cs).value, p[1..], q, x, cs);
    }
  }

  // ---- removing and adding at the same location replaces ----

  lemma InsertWithout<T>(s: seq<T>, i: nat, x: T)
    requires i < |s|
    ensures Inserted(Without(s, i), i, x) == s[i := x]
  {
  }

  lemma RemoveAddHere(v: Value, token: Str, x: Value, cs: bool)
    ensures var r := EditHere(v, token, Remove, cs);
            EditHere(v, token, Replace(x), cs) == if r.None? then None else EditHere(r.value, token, Add(x), cs)
  {
    if ChildOf(v, token, cs).Some? {
      match v {
        case VArray(items) =>
          assert token != [DASH] by { assert IsDigit(token[0]); }
          InsertWithout(items, RfcIndex(token).value, x);
        case VObject(m) =>
          assert (m - {Fold(token, cs)})[Fold(token, cs) := x] == m[Fold(token, cs) := x];
      }
    }
  }

  lemma {:induction false} RemoveAddReplaces(v: Value, path: Path, x: Value, cs: bool)
    requires path != []
    ensures var r := Apply(v, path, Remove, cs);
            Apply(v, path, Replace(x), cs) == if r.None? then None else Apply(r.value, path, Add(x), cs)
  {
    if |path| == 1 {
      RemoveAddHere(v, path[0], x, cs);
    } else if ChildOf(v, path[0], cs).Some? {
      var c := ChildOf(v, path[0], cs).value;
      RemoveAddReplaces(c, path[1..], x, cs);
      var r := Apply(c, path[1..], Remove, cs);
      if r.Some? { ChildAfterPut(v, path[0], r.value, cs); }
    }
  }

  /** `replace` puts the new value exactly at the location, when there is one. */
  lemma {:induction false} ReplaceIsPut(v: Value, path: Path, x: Value, cs: bool)
    requires path != []
    ensures Apply(v, path, Replace(x), cs) == if Get(v, path, cs).Some? then Some(PutPath(v, path, x, cs)) else None
  {
    if |path| == 1 {
      assert path[1..] == [];
    } else if ChildOf(v, path[0], cs).Some? {
      ReplaceIsPut(ChildOf(v, path[0], cs).value, path[1..], x, cs);
    }
  }

  /** `remove` succeeds exactly where there is a value. */
  lemma {:induction false} RemoveExists(v: Value, path: Path, cs: bool)
    requires path != []
    ensures Apply(v, path, Remove, cs).Some? <==> Get(v, path, cs).Some?
  {
    if |path| == 1 {
      assert path[1..] == [];
    } else if ChildOf(v, path[0], cs).Some? {
      RemoveExists(ChildOf(v, path[0], cs).value, path[1..], cs);
    }
  }

  // ---- names that the case mode does not tell apart ----

  /** Token by token, two pointers name the same way. */
  predicate SameTokens(p: Path, q: Path, cs: bool) {
    |p| == |q| && forall i | 0 <= i < |p| :: Fold(p[i], cs) == Fold(q[i], cs)
  }

  lemma DigitsFold(a: Str, b: Str, cs: bool)
    requires Fold(a, cs) == Fold(b, cs)
    ensures AllDigits(a) ==> a == b
    ensures a == [DASH] ==> b == [DASH]
  {
    assert |a| == |Fold(a, cs)| == |b|;
    forall i | 0 <= i < |a| && (IsDigit(a[i]) || a[i] == DASH)
      ensures a[i] == b[i]
    {
      assert FoldChar(a[i], cs) == Fold(a, cs)[i] == FoldChar(b[i], cs);
    }
  }

  /** A token acts like any other that folds to the same: an index or a dash folds to itself only. */
  lemma TokenFolds(v: Value, a: Str, b: Str, x: Value, e: Edit, cs: bool)
    requires Fold(a, cs) == Fold(b, cs)
    ensures ChildOf(v, a, cs) == ChildOf(v, b, cs) && EditHere(v, a, e, cs) == EditHere(v, b, e, cs)
    ensures ChildOf(v, a, cs).Some? ==> PutChild(v, a, x, cs) == PutChild(v, b, x, cs)
  {
    DigitsFold(a, b, cs);
    DigitsFold(b, a, cs);
  }

  lemma {:induction false} PathFolds(v: Value, p: Path, q: Path, e: Edit, cs: bool)
    requires p != [] && SameTokens(p, q, cs)
    ensures Apply(v, p, e, cs) == Apply(v, q, e, cs)
  {
    TokenFolds(v, p[0], q[0], v, e, cs);
    if |p| > 1 && ChildOf(v, p[0], cs).Some? {
      var c := ChildOf(v, p[0], cs).value;
      PathFolds(c, p[1..], q[1..], e, cs);
      var c' := Apply(c, p[1..], e, cs);
      if c'.Some? { TokenFolds(v, p[0], q[0], c'.value, e, cs); }
    }
  }

  // ---- moving a location into itself ----

  /** The "from" location is a proper prefix of the "path" location, with names compared in the case mode. */
  predicate IntoItself(from: Path, path: Path, cs: bool) {
    |from| < |path| && SameTokens(from, path[..|from|], cs)
  }

  /** Section 4.4 of the RFC: such a move is an error, and any other one removes and then adds. */
  function Move(v: Value, from: Path, path: Path, cs: bool): Option<Value>
    requires from != [] && path != []
  {
    if IntoItself(from, path, cs) then None else RemoveThenAdd(v, from, path, cs)
  }

  /** The element after the one that `j` names in the array at `p` would take that one in at `rest`. */
  predicate NextTakesIn(v: Value, p: Path, j: Str, rest: Path, cs: bool)
    requires rest != []
  {
    match Get(v, p, cs)
    case Some(VArray(items)) =>
      (match RfcIndex(j)
       case Some(i) => i + 1 < |items| && Apply(items[i + 1], rest, Add(items[i]), cs).Some?
       case None => false)
    case _ => false
  }

  /** One token deep: the removal lets the next element slide into place. */
  lemma IntoNext(here: Value, j: Str, rest: Path, cs: bool)
    requires rest != []
    ensures RemoveThenAdd(here, [j], [j] + rest, cs).Some? <==> NextTakesIn(here, [], j, rest, cs)
  {
    assert Get(here, [j], cs) == ChildOf(here, j, cs) by { assert [j][1..] == []; }
    assert ([j] + rest)[1..] == rest;
    if ChildOf(here, j, cs).Some? && here.VArray? {
      var i := RfcIndex(j).value;
      assert i + 1 < |here.items| ==> Without(here.items, i)[i] == here.items[i + 1];
    }
  }

  /**
   * Removing a location and adding what was there below that same location succeeds exactly when the
   * location is an element of an array and the next element can take it in.
   */
  lemma RemoveThenAddInside(v: Value, p: Path, j: Str, rest: Path, cs: bool)
    requires rest != []
    ensures RemoveThenAdd(v, p + [j], p + [j] + rest, cs).Some? <==> NextTakesIn(v, p, j, rest, cs)
  {
    hide NextTakesIn, Apply, PutPath, EditHere;
    NextFrom(v, p, j, rest, cs);
    assert p + [j] + rest == p + ([j] + rest);
    if Get(v, p, cs).None? {
      NothingBelow(v, p, [j], cs);
    } else {
      var here := Get(v, p, cs).value;
      ApplyUnder(v, p, [j], Remove, cs);
      GetConcat(v, p, [j], cs);
      IntoNext(here, j, rest, cs);
      var gone := Apply(here, [j], Remove, cs);
      if gone.Some? && Get(here, [j], cs).Some? {
        GetAfterPut(v, p, gone.value, cs);
        ApplyUnder(PutPath(v, p, gone.value, cs), p, [j] + rest, Add(Get(here, [j], cs).value), cs);
      }
    }
  }

  lemma NextFrom(v: Value, p: Path, j: Str, rest: Path, cs: bool)
    requires rest != []
    ensures NextTakesIn(v, p, j, rest, cs) <==> Get(v, p, cs).Some? && NextTakesIn(Get(v, p, cs).value, [], j, rest, cs)
  {
    hide Apply;
  }

  lemma {:induction false} NothingBelow(v: Value, p: Path, q: Path, cs: bool)
    requires Get(v, p, cs).None?
    ensures Get(v, p + q, cs).None?
  {
    assert (p + q)[1..] == p[1..] + q;
    if ChildOf(v, p[0], cs).Some? { NothingBelow(ChildOf(v, p[0], cs).value, p[1..], q, cs); }
  }

  /** The same for every way of spelling the names on the way. */
  lemma MoveExact(v: Value, p: Path, j: Str, path: Path, cs: bool)
    requires IntoItself(p + [j], path, cs)
    ensures RemoveThenAdd(v, p + [j], path, cs).Some? <==> NextTakesIn(v, p, j, path[|p| + 1..], cs)
  {
    var rest := path[|p| + 1..];
    RemoveThenAddInside(v, p, j, rest, cs);
    var v', x := Apply(v, p + [j], Remove, cs), Get(v, p + [j], cs);
    assert SameTokens(p + [j] + rest, path, cs);
    if v'.Some? && x.Some? { PathFolds(v'.value, p + [j] + rest, path, Add(x.value), cs); }
  }

  // ---- locations an operation leaves alone ----

  /** Where an element of an array stands after the edit at a token. */
  function Slid(items: seq<Value>, token: Str, e: Edit, m: nat): nat {
    match (e, RfcIndex(token))
    case (Add(_), Some(i)) => if token != [DASH] && i <= m then m + 1 else m
    case (Remove, Some(i)) => if i < m then m - 1 else m
    case (_, _) => m
  }

  /**
   * The location `q` is off the location `p` of an edit of `v`: on the way down the two part at an
   * object or an array, or an element is added, beside which all others are off.
   */
  predicate Off(v: Value, p: Path, q: Path, e: Edit, cs: bool)
    requires p != []
  {
    && q != []
    && match v
       case VObject(m) =>
         Fold(p[0], cs) != Fold(q[0], cs) || (|p| > 1 && Fold(p[0], cs) in m && Off(m[Fold(p[0], cs)], p[1..], q[1..], e, cs))
       case VArray(items) =>
         && RfcIndex(q[0]).Some? && RfcIndex(q[0]).value < |items|
         && (|| (|p| == 1 && e.Add?)
             || RfcIndex(p[0]) != RfcIndex(q[0])
             || (|p| > 1 && Off(items[RfcIndex(q[0]).value], p[1..], q[1..], e, cs)))
       case _ => false
  }

  /** The location in the edited document of what stood at `q`: later elements of the edited array have moved by one. */
  function After(v: Value, p: Path, q: Path, e: Edit, cs: bool): Path
    requires p != [] && Off(v, p, q, e, cs)
  {
    match v
    case VArray(items) =>
      var m := RfcIndex(q[0]).value;
      if |p| == 1 then (if Slid(items, p[0], e, m) == m then q else [Decimal(Slid(items, p[0], e, m))] + q[1..])
      else if RfcIndex(p[0]) != RfcIndex(q[0]) then q
      else [q[0]] + After(items[m], p[1..], q[1..], e, cs)
    case VObject(ms) =>
      if Fold(p[0], cs) != Fold(q[0], cs) then q else [q[0]] + After(ms[Fold(p[0], cs)], p[1..], q[1..], e, cs)
  }

  lemma DecimalIndex(n: nat)
    ensures RfcIndex(Decimal(n)) == Some(n)
  {
    DecimalIsIndex(n);
  }

  /** The edited array holds the old elements where they have slid to. */
  lemma ElementsSlide(items: seq<Value>, token: Str, e: Edit, m: nat, cs: bool)
    requires m < |items| && (e.Add? || RfcIndex(token) != Some(m)) && EditHere(VArray(items), token, e, cs).Some?
    ensures var r := EditHere(VArray(items), token, e, cs).value;
            var n := Slid(items, token, e, m);
            r.VArray? && n < |r.items| && r.items[n] == items[m]
  {
    if token == [DASH] { assert !IsDigit(token[0]); }
  }

  /** Every value off the affected location is what it was, at the place it has slid to. */
  lemma {:induction false} OffUnchanged(v: Value, p: Path, q: Path, e: Edit, cs: bool)
    requires p != [] && Off(v, p, q, e, cs) && Apply(v, p, e, cs).Some?
    ensures Get(Apply(v, p, e, cs).value, After(v, p, q, e, cs), cs) == Get(v, q, cs)
  {
    if v.VArray? {
      var m := RfcIndex(q[0]).value;
      if |p| == 1 {
        ElementsSlide(v.items, p[0], e, m, cs);
        DecimalIndex(Slid(v.items, p[0], e, m));
      } else if RfcIndex(p[0]) == RfcIndex(q[0]) {
        OffUnchanged(v.items[m], p[1..], q[1..], e, cs);
      }
    } else if Fold(p[0], cs) == Fold(q[0], cs) {
      OffUnchanged(v.members[Fold(p[0], cs)], p[1..], q[1..], e, cs);
    }
  }

  /** A location that neither half of a move touches. */
  predicate OffMove(v: Value, from: Path, path: Path, q: Path, cs: bool)
    requires from != [] && path != []
  {
    && Off(v, from, q, Remove, cs)
    && match (Get(v, from, cs), Apply(v, from, Remove, cs))
       case (Some(x), Some(v')) => Off(v', path, After(v, from, q, Remove, cs), Add(x), cs)
       case (_, _) => true
  }

  /** Where a move leaves what stood at `q`. */
  function AfterMove(v: Value, from: Path, path: Path, q: Path, cs: bool): Path
    requires from != [] && path != [] && OffMove(v, from, path, q, cs)
  {
    match (Get(v, from, cs), Apply(v, from, Remove, cs))
    case (Some(x), Some(v')) => After(v', path, After(v, from, q, Remove, cs), Add(x), cs)
    case (_, _) => q
  }

  /** Every value off both locations of a move is what it was, at the place it has slid to. */
  lemma MoveLeaves(v: Value, from: Path, path: Path, q: Path, cs: bool)
    requires from != [] && path != [] && OffMove(v, from, path, q, cs) && RemoveThenAdd(v, from, path, cs).Some?
    ensures Get(RemoveThenAdd(v, from, path, cs).value, AfterMove(v, from, path, q, cs), cs) == Get(v, q, cs)
  {
    var x, v' := Get(v, from, cs).value, Apply(v, from, Remove, cs).value;
    OffUnchanged(v, from, q, Remove, cs);
    OffUnchanged(v', path, After(v, from, q, Remove, cs), Add(x), cs);
  }
}
